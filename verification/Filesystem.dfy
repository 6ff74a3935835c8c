/** The stop order of heartbeat/Filesystem: which paths are unmounted, in which order, with what result. */
module Filesystem {

  type Path = string

  /** `p` lies below `m`: the match of grep "<m>/" at the start of a mount point. */
  predicate Below(p: Path, m: Path) {
    m + "/" <= p
  }

  lemma BelowIsTransitive(p: Path, q: Path, r: Path)
    requires Below(p, q) && Below(q, r)
    ensures Below(p, r)
  {
    var n := |r| + 1;
    assert (r + "/") == q[..n] == (q + "/")[..n] == p[..n];
  }

  // ----- Paths as lists of names -----

  /** The names of a path that has one more character in front. */
  function WithFirst(c: char, r: seq<string>): seq<string>
    requires |r| > 0
  {
    if c == '/' then [[]] + r else [[c] + r[0]] + r[1..]
  }

  /** The names of a path, split at every '/'; the first one of an absolute path is empty. */
  function Names(p: Path): (r: seq<string>)
    ensures |r| > 0
  {
    if p == [] then [[]]
    else WithFirst(p[0], Names(p[1..]))
  }

  /** The path with these names. */
  function Joined(names: seq<string>): Path
    requires |names| > 0
  {
    if |names| == 1 then names[0] else names[0] + "/" + Joined(names[1..])
  }

  lemma JoinedWithFirst(c: char, r: seq<string>)
    requires |r| > 0
    ensures Joined(WithFirst(c, r)) == [c] + Joined(r)
  {
    if c == '/' {
      assert WithFirst(c, r)[1..] == r;
      assert Joined(WithFirst(c, r)) == [] + "/" + Joined(r);
    } else {
      assert WithFirst(c, r)[1..] == r[1..];
    }
  }

  lemma {:induction false} JoinedNames(p: Path)
    ensures Joined(Names(p)) == p
  {
    if p != [] {
      JoinedNames(p[1..]);
      JoinedWithFirst(p[0], Names(p[1..]));
    }
  }

  lemma {:induction false} NamesHaveNoSlash(p: Path)
    ensures forall i :: 0 <= i < |Names(p)| ==> '/' !in Names(p)[i]
  {
    if p != [] {
      NamesHaveNoSlash(p[1..]);
    }
  }

  lemma WithFirstOfTwo(c: char, a: seq<string>, b: seq<string>)
    requires |a| > 0
    ensures WithFirst(c, a + b) == WithFirst(c, a) + b
  {
    assert (a + b)[1..] == a[1..] + b;
  }

  lemma {:induction false} NamesOfTwo(m: Path, rest: Path)
    ensures Names(m + "/" + rest) == Names(m) + Names(rest)
  {
    var p := m + "/" + rest;
    if m == [] {
      assert p[1..] == rest;
    } else {
      assert p[0] == m[0] && p[1..] == m[1..] + "/" + rest;
      NamesOfTwo(m[1..], rest);
      WithFirstOfTwo(m[0], Names(m[1..]), Names(rest));
    }
  }

  lemma {:induction false} JoinedTwo(a: seq<string>, b: seq<string>)
    requires |a| > 0 && |b| > 0
    ensures Joined(a + b) == Joined(a) + "/" + Joined(b)
    decreases |a|
  {
    if |a| == 1 {
      assert (a + b)[1..] == b;
    } else {
      assert (a + b)[1..] == a[1..] + b;
      JoinedTwo(a[1..], b);
      assert Joined(a) == a[0] + "/" + Joined(a[1..]);
    }
  }

  /** A path lies below another exactly when it has more names and begins with all of the other's. */
  lemma BelowIsMoreNames(p: Path, m: Path)
    ensures Below(p, m) <==> |Names(m)| < |Names(p)| && Names(p)[..|Names(m)|] == Names(m)
  {
    if Below(p, m) {
      var rest := p[|m| + 1..];
      assert p == m + "/" + rest;
      NamesOfTwo(m, rest);
    }
    if |Names(m)| < |Names(p)| && Names(p)[..|Names(m)|] == Names(m) {
      var rest := Names(p)[|Names(m)|..];
      assert Names(p) == Names(m) + rest;
      JoinedTwo(Names(m), rest);
      JoinedNames(p);
      JoinedNames(m);
    }
  }

  /** A path that only goes on with the last name of `m`, as /mnt/ab does with that of /mnt/a, is no submount. */
  lemma SiblingIsNotListed(mounts: seq<Path>, p: Path, m: Path)
    requires |p| > |m| && p[..|m|] == m && p[|m|] != '/'
    ensures p !in ListSubmounts(mounts, m)
  {
    ChildrenFirst(mounts, m);
    LengthenedIsNotBelow(p, m);
  }

  lemma LengthenedIsNotBelow(p: Path, m: Path)
    requires |p| > |m| && p[..|m|] == m && p[|m|] != '/'
    ensures p != m && !Below(p, m)
  {
    assert (m + "/")[|m|] == '/';
  }

  // ----- list_submounts: filter, then sort -r -----

  /** Lexicographic order of the character codes. */
  predicate LexLeq(a: Path, b: Path) {
    a == [] || (b != [] && (a[0] < b[0] || (a[0] == b[0] && LexLeq(a[1..], b[1..]))))
  }

  lemma {:induction false} LexTotal(a: Path, b: Path)
    ensures LexLeq(a, b) || LexLeq(b, a)
    ensures LexLeq(a, b) && LexLeq(b, a) ==> a == b
  {
    if a != [] && b != [] && a[0] == b[0] {
      LexTotal(a[1..], b[1..]);
      assert a == [a[0]] + a[1..] && b == [b[0]] + b[1..];
    }
  }

  lemma {:induction false} LexTransitive(a: Path, b: Path, c: Path)
    requires LexLeq(a, b) && LexLeq(b, c)
    ensures LexLeq(a, c)
  {
    if a != [] && a[0] == b[0] && b[0] == c[0] {
      LexTransitive(a[1..], b[1..], c[1..]);
    }
  }

  /** A path sorts before everything below it. */
  lemma {:induction false} PrefixSortsFirst(m: Path, p: Path)
    requires m <= p
    ensures LexLeq(m, p)
  {
    if m != [] {
      PrefixSortsFirst(m[1..], p[1..]);
    }
  }

  function Filter(mounts: seq<Path>, m: Path): seq<Path> {
    if mounts == [] then []
    else (if Below(mounts[0], m) then [mounts[0]] else []) + Filter(mounts[1..], m)
  }

  /** Inserts into a list in descending order. */
  function Insert(p: Path, sorted: seq<Path>): seq<Path> {
    if sorted == [] || LexLeq(sorted[0], p) then [p] + sorted
    else [sorted[0]] + Insert(p, sorted[1..])
  }

  function SortReverse(ps: seq<Path>): seq<Path> {
    if ps == [] then [] else Insert(ps[0], SortReverse(ps[1..]))
  }

  function ListSubmounts(mounts: seq<Path>, m: Path): seq<Path> {
    SortReverse(Filter(mounts, m))
  }

  predicate Descending(ps: seq<Path>) {
    forall i, j :: 0 <= i < j < |ps| ==> LexLeq(ps[j], ps[i])
  }

  lemma {:induction false} FilterKeeps(mounts: seq<Path>, m: Path)
    ensures forall p :: p in Filter(mounts, m) <==> p in mounts && Below(p, m)
  {
    if mounts != [] {
      FilterKeeps(mounts[1..], m);
      assert mounts == [mounts[0]] + mounts[1..];
    }
  }

  lemma {:induction false} InsertSorts(p: Path, ps: seq<Path>)
    requires Descending(ps)
    ensures Descending(Insert(p, ps)) && multiset(Insert(p, ps)) == multiset(ps) + multiset{p}
  {
    if ps == [] {
    } else if LexLeq(ps[0], p) {
      forall i | 0 <= i < |ps| ensures LexLeq(ps[i], p) {
        if i > 0 {
          LexTransitive(ps[i], ps[0], p);
        }
      }
    } else {
      LexTotal(ps[0], p);
      var rest := Insert(p, ps[1..]);
      InsertSorts(p, ps[1..]);
      assert ps == [ps[0]] + ps[1..];
      forall i | 0 <= i < |rest| ensures LexLeq(rest[i], ps[0]) {
        assert rest[i] in multiset(rest);
        if rest[i] != p {
          assert rest[i] in ps[1..];
        }
      }
    }
  }

  lemma {:induction false} SortReverseSorts(ps: seq<Path>)
    ensures Descending(SortReverse(ps)) && multiset(SortReverse(ps)) == multiset(ps)
  {
    if ps != [] {
      SortReverseSorts(ps[1..]);
      InsertSorts(ps[0], SortReverse(ps[1..]));
      assert ps == [ps[0]] + ps[1..];
    }
  }

  /** The list holds exactly the mounts below `m`, and no path comes before one below it. */
  lemma ChildrenFirst(mounts: seq<Path>, m: Path)
    ensures var ps := ListSubmounts(mounts, m);
            && (forall p :: p in ps <==> p in mounts && Below(p, m))
            && (forall i, j :: 0 <= i < j < |ps| ==> !Below(ps[j], ps[i]))
  {
    var ps := ListSubmounts(mounts, m);
    FilterKeeps(mounts, m);
    SortReverseSorts(Filter(mounts, m));
    forall p ensures p in ps <==> p in Filter(mounts, m) {
      assert p in ps <==> p in multiset(ps);
      assert p in Filter(mounts, m) <==> p in multiset(Filter(mounts, m));
    }
    forall i, j | 0 <= i < j < |ps| ensures !Below(ps[j], ps[i]) {
      if Below(ps[j], ps[i]) {
        PrefixSortsFirst(ps[i], ps[j]);
        LexTotal(ps[i], ps[j]);
      }
    }
  }

  lemma {:induction false} LexByFirstDifference(a: Path, b: Path, k: nat)
    requires LexLeq(a, b) && k < |a| && k < |b| && a[..k] == b[..k]
    ensures a[k] <= b[k]
  {
    if k > 0 {
      assert a[0] == a[..k][0] == b[..k][0] == b[0];
      assert a[1..][..k - 1] == a[..k][1..] == b[..k][1..] == b[1..][..k - 1];
      LexByFirstDifference(a[1..], b[1..], k - 1);
    }
  }

  /** The list is in reverse order: where two paths first differ, the earlier one has the larger character. */
  lemma ListIsReversed(mounts: seq<Path>, m: Path, i: nat, j: nat, k: nat)
    requires var ps := ListSubmounts(mounts, m);
             i < j < |ps| && k < |ps[i]| && k < |ps[j]| && ps[i][..k] == ps[j][..k]
    ensures ListSubmounts(mounts, m)[i][k] >= ListSubmounts(mounts, m)[j][k]
  {
    var ps := ListSubmounts(mounts, m);
    SortReverseSorts(Filter(mounts, m));
    assert LexLeq(ps[j], ps[i]);
    LexByFirstDifference(ps[j], ps[i], k);
  }

  // ----- Filesystem_stop -----

  const OCF_SUCCESS := 0
  const OCF_ERR_GENERIC := 1

  /**
   * For each path, whether processes keep it busy at the first, second, ... attempt that its
   * timeout allows.
   */
  type Busy = Path -> seq<bool>

  /** Some attempt finds the path free of processes. */
  predicate EverFree(busy: Busy, p: Path) {
    false in busy(p)
  }

  /** The path and every mount below it are free in time. */
  predicate CanGo(mounts: set<Path>, busy: Busy, p: Path) {
    EverFree(busy, p) && forall q :: q in mounts && Below(q, p) ==> EverFree(busy, q)
  }

  /** What is still mounted once the loop has been through the paths in `done`. */
  function Left(all: set<Path>, done: seq<Path>, busy: Busy): set<Path> {
    set p | p in all && !(p in done && CanGo(all, busy, p))
  }

  class MountTable {
    var mounted: set<Path>

    constructor (mounted: set<Path>)
      ensures this.mounted == mounted
    {
      this.mounted := mounted;
    }

    /** umount fails on a busy path and on one that has mounts below; the result is read from the table. */
    method TryUmount(sub: Path, isBusy: bool) returns (rc: int)
      modifies this
      ensures mounted == if !isBusy && (forall q :: q in old(mounted) ==> !Below(q, sub))
                         then old(mounted) - {sub} else old(mounted)
      ensures rc == if sub in mounted then OCF_ERR_GENERIC else OCF_SUCCESS
    {
      if !isBusy && forall q :: q in mounted ==> !Below(q, sub) {
        mounted := mounted - {sub};
      }
      rc := if sub in mounted then OCF_ERR_GENERIC else OCF_SUCCESS;
    }

    /** Attempts follow each other until one succeeds or the time is up. */
    method FsStop(sub: Path, busy: seq<bool>) returns (rc: int)
      requires sub in mounted
      modifies this
      ensures var free := false in busy && forall q :: q in old(mounted) ==> !Below(q, sub);
              && mounted == (if free then old(mounted) - {sub} else old(mounted))
              && rc == if free then OCF_SUCCESS else OCF_ERR_GENERIC
    {
      var k := 0;
      while k < |busy|
        invariant 0 <= k <= |busy| && mounted == old(mounted)
        invariant (exists q :: q in mounted && Below(q, sub)) || false !in busy[..k]
      {
        rc := TryUmount(sub, busy[k]);
        if rc == OCF_SUCCESS {
          assert busy[k] == false;
          return;
        }
        assert busy[..k + 1] == busy[..k] + [busy[k]];
        k := k + 1;
      }
      assert busy[..k] == busy;
      rc := OCF_ERR_GENERIC;
    }

    /**
     * The loop over the submounts and the mount point; `mounts` is the mount list in table order.
     * Exactly the paths that are free in time together with everything below them are gone, and
     * success is reported exactly when that is all of them, although the loop goes on after a failure.
     */
    method UmountAll(mounts: seq<Path>, m: Path, busy: Busy) returns (rc: int)
      requires mounted == (set p | p in mounts) && m in mounts
      requires forall i, j :: 0 <= i < j < |mounts| ==> mounts[i] != mounts[j]
      modifies this
      ensures mounted == set p | p in old(mounted) && !((p == m || Below(p, m)) && CanGo(old(mounted), busy, p))
      ensures rc == OCF_SUCCESS <==> CanGo(old(mounted), busy, m)
      ensures rc == OCF_SUCCESS <==> forall p :: p in mounted ==> p != m && !Below(p, m)
      ensures forall p :: p in old(mounted) && |p| > |m| && p[..|m|] == m && p[|m|] != '/' ==> p in mounted
    {
      var list := ListSubmounts(mounts, m) + [m];
      ListIsComplete(mounts, m);
      rc := OCF_SUCCESS;
      ghost var all := mounted;
      var k := 0;
      while k < |list|
        invariant 0 <= k <= |list|
        invariant mounted == Left(all, list[..k], busy)
        invariant k == |list| ==> (rc == OCF_SUCCESS <==> CanGo(all, busy, m))
      {
        var sub := list[k];
        OneStop(mounts, m, all, mounted, busy, k);
        LeftNext(all, list, k, busy);
        rc := FsStop(sub, busy(sub));
        k := k + 1;
      }
      assert list[..k] == list;
      LeftInTheEnd(all, list, busy, m);
      AllOrNot(all, mounted, busy, m);
      SiblingsStay(all, m);
    }

    /** Nothing to do, not even below, when the mount point itself is not mounted. */
    method FilesystemStop(mounts: seq<Path>, m: Path, busy: Busy) returns (rc: int)
      requires mounted == (set p | p in mounts)
      requires forall i, j :: 0 <= i < j < |mounts| ==> mounts[i] != mounts[j]
      modifies this
      ensures m !in old(mounted) ==> rc == OCF_SUCCESS && mounted == old(mounted)
      ensures m in old(mounted) ==>
                && mounted == (set p | p in old(mounted) && !((p == m || Below(p, m)) && CanGo(old(mounted), busy, p)))
                && (rc == OCF_SUCCESS <==> forall p :: p in mounted ==> p != m && !Below(p, m))
      ensures forall p :: p in old(mounted) && |p| > |m| && p[..|m|] == m && p[|m|] != '/' ==> p in mounted
    {
      if m !in mounted {
        rc := OCF_SUCCESS;
      } else {
        rc := UmountAll(mounts, m, busy);
      }
    }
  }

  lemma SiblingsStay(all: set<Path>, m: Path)
    ensures forall p :: p in all && |p| > |m| && p[..|m|] == m && p[|m|] != '/' ==> p != m && !Below(p, m)
  {
    forall p | p in all && |p| > |m| && p[..|m|] == m && p[|m|] != '/' ensures p != m && !Below(p, m) {
      LengthenedIsNotBelow(p, m);
    }
  }

  /** When the list holds all paths at or below `m`, what is left is what cannot go or lies elsewhere. */
  lemma LeftInTheEnd(all: set<Path>, list: seq<Path>, busy: Busy, m: Path)
    requires forall p :: p in list <==> p in all && (p == m || Below(p, m))
    ensures Left(all, list, busy) == set p | p in all && !((p == m || Below(p, m)) && CanGo(all, busy, p))
  {
  }

  lemma LeftNext(all: set<Path>, list: seq<Path>, k: nat, busy: Busy)
    requires k < |list|
    ensures Left(all, list[..k + 1], busy) ==
            Left(all, list[..k], busy) - if CanGo(all, busy, list[k]) then {list[k]} else {}
  {
    assert list[..k + 1] == list[..k] + [list[k]];
  }

  /** The mount point is gone exactly when nothing at or below it is left. */
  lemma AllOrNot(all: set<Path>, left: set<Path>, busy: Busy, m: Path)
    requires m in all
    requires left == set p | p in all && !((p == m || Below(p, m)) && CanGo(all, busy, p))
    ensures CanGo(all, busy, m) <==> forall p :: p in left ==> p != m && !Below(p, m)
  {
    if CanGo(all, busy, m) {
      forall p | p in all && Below(p, m) ensures CanGo(all, busy, p) {
        forall q | q in all && Below(q, p) ensures EverFree(busy, q) {
          BelowIsTransitive(q, p, m);
        }
      }
    } else {
      assert m in left;
    }
  }

  /** The loop's list: all mounts at or below `m`, each once, with everything below a path before it. */
  lemma ListIsComplete(mounts: seq<Path>, m: Path)
    requires m in mounts
    requires forall i, j :: 0 <= i < j < |mounts| ==> mounts[i] != mounts[j]
    ensures var list := ListSubmounts(mounts, m) + [m];
            && (forall p :: p in list <==> p in mounts && (p == m || Below(p, m)))
            && (forall i, j :: 0 <= i < j < |list| ==> !Below(list[j], list[i]) && list[i] != list[j])
  {
    ChildrenFirst(mounts, m);
    NoRepeats(mounts, m);
    var ps := ListSubmounts(mounts, m);
    forall i | 0 <= i < |ps| ensures !Below(m, ps[i]) && ps[i] != m {
      assert ps[i] in ps;
      assert |ps[i]| > |m|;
    }
  }

  lemma {:induction false} FilterOnce(mounts: seq<Path>, m: Path)
    requires forall i, j :: 0 <= i < j < |mounts| ==> mounts[i] != mounts[j]
    ensures forall p :: multiset(Filter(mounts, m))[p] <= 1
  {
    if mounts != [] {
      FilterOnce(mounts[1..], m);
      FilterKeeps(mounts[1..], m);
    }
  }

  lemma NoRepeats(mounts: seq<Path>, m: Path)
    requires forall i, j :: 0 <= i < j < |mounts| ==> mounts[i] != mounts[j]
    ensures var ps := ListSubmounts(mounts, m);
            forall i, j :: 0 <= i < j < |ps| ==> ps[i] != ps[j]
  {
    var ps := ListSubmounts(mounts, m);
    FilterOnce(mounts, m);
    SortReverseSorts(Filter(mounts, m));
    forall i, j | 0 <= i < j < |ps| ensures ps[i] != ps[j] {
      TwiceInSequence(ps, i, j);
      assert multiset(ps)[ps[i]] == multiset(Filter(mounts, m))[ps[i]] <= 1;
    }
  }

  lemma TwiceInSequence(ps: seq<Path>, i: nat, j: nat)
    requires i < j < |ps|
    ensures ps[i] == ps[j] ==> multiset(ps)[ps[i]] >= 2
  {
    assert ps == ps[..i] + [ps[i]] + ps[i + 1..j] + [ps[j]] + ps[j + 1..];
  }

  /** When the loop comes to a path, what is still mounted below it is what cannot go. */
  lemma OneStop(mounts: seq<Path>, m: Path, all: set<Path>, mounted: set<Path>, busy: Busy, k: nat)
    requires m in mounts && all == set p | p in mounts
    requires forall i, j :: 0 <= i < j < |mounts| ==> mounts[i] != mounts[j]
    requires var list := ListSubmounts(mounts, m) + [m];
             && k < |list|
             && mounted == Left(all, list[..k], busy)
    ensures var sub := (ListSubmounts(mounts, m) + [m])[k];
            && sub in mounted
            && ((forall q :: q in mounted ==> !Below(q, sub)) && EverFree(busy, sub) <==> CanGo(all, busy, sub))
  {
    var list := ListSubmounts(mounts, m) + [m];
    var sub := list[k];
    ListIsComplete(mounts, m);
    assert sub in list;
    forall q | q in all && Below(q, sub) ensures q in list[..k] {
      if sub != m {
        BelowIsTransitive(q, sub, m);
      }
      var i :| 0 <= i < |list| && list[i] == q;
      assert i < k;
    }
    if CanGo(all, busy, sub) {
      forall q | q in mounted ensures !Below(q, sub) {
        if Below(q, sub) {
          forall r | r in all && Below(r, q) ensures EverFree(busy, r) {
            BelowIsTransitive(r, q, sub);
          }
        }
      }
    }
  }
}
