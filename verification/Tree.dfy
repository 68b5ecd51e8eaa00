/** A directory tree and the system calls the object layer makes on it. */
module FileTree {
  import opened Wrappers
  import opened Paths

  /** What `os.Remove` can answer. */
  datatype Removal<T> = Removed(tree: Tree<T>) | NotExist | Refused

  datatype Tree<T> = Tree(files: map<Path, T>, dirs: set<Path>) {

    predicate Has(p: Path) {
      p in files || p in dirs
    }

    /** What every file system keeps: parents exist, nothing is both a file and a directory,
        and entry names are plain. */
    ghost predicate Wf() {
      && [] in dirs
      && files.Keys !! dirs
      && (forall p, n: nat {:trigger p[..n], Has(p)} :: Has(p) && n < |p| ==> p[..n] in dirs)
      && (forall p :: Has(p) ==> AllPlain(p))
    }

    predicate HasEntries(d: Path) {
      exists q :: q in files.Keys + dirs && d < q
    }

    ghost predicate HasFileBelow(d: Path) {
      exists f :: f in files && d < f
    }

    /** A proper ancestor of `p` is a file, so no entry can exist at `p`. */
    predicate Obstructed(p: Path) {
      exists f :: f in files && f < p
    }

    /** Every directory below a bucket root holds a file somewhere beneath it. */
    ghost predicate Tidy() {
      forall d :: d in dirs && 2 <= |d| ==> HasFileBelow(d)
    }

    // ---- system calls ----

    function MkdirAll(d: Path): Option<Tree<T>> {
      if d in files || Obstructed(d) then None else Some(Tree(files, dirs + Prefixes(d)))
    }

    /** Creating or overwriting a file. */
    function WriteFile(p: Path, v: T): Option<Tree<T>> {
      if p == [] || p in dirs || Parent(p) !in dirs then None else Some(Tree(files[p := v], dirs))
    }

    function Rename(from: Path, to: Path): Option<Tree<T>> {
      if from !in files || to == [] || to in dirs || Parent(to) !in dirs then None
      else Some(Tree((files - {from})[to := files[from]], dirs))
    }

    /** Unlinks a file or an empty directory. */
    function Remove(p: Path): Removal<T> {
      if p in files then Removed(Tree(files - {p}, dirs))
      else if p in dirs then
        if HasEntries(p) then Refused else Removed(Tree(files, dirs - {p}))
      else if Obstructed(p) then Refused
      else NotExist
    }

    /** `removeIfExists`: a missing entry is not an error. */
    function RemoveIfExists(p: Path): Option<Tree<T>> {
      match Remove(p)
      case Removed(t) => Some(t)
      case NotExist => Some(this)
      case Refused => None
    }

    // ---- the effects the object layer composes from them ----

    /** A file at `p`, with every directory on the way to it. */
    function Place(p: Path, v: T): Tree<T>
      requires p != []
    {
      Tree(files[p := v], dirs + Prefixes(Parent(p)))
    }

    /** A file can be placed at `p`: `p` is no directory and no ancestor of it is a file. */
    predicate Placeable(p: Path) {
      p !in dirs && !Obstructed(p)
    }

    /** Everything beneath `e` is itself a directory on the way down to `d`. */
    ghost predicate OnlyChain(e: Path, d: Path) {
      forall q :: Has(q) && e < q ==> q in dirs && q <= d
    }

    /** The directories `removeEmptyParents` takes away when started at `d`. */
    ghost predicate Prunable(e: Path, d: Path) {
      2 <= |e| && e <= d && OnlyChain(e, d)
    }

    /** The tree after `removeEmptyParents(d, bucket root)`. */
    ghost function Pruned(d: Path): Tree<T> {
      if d in dirs then Tree(files, set e | e in dirs && !Prunable(e, d)) else this
    }
  }

  function Prefixes(d: Path): set<Path> {
    set n: nat | n <= |d| :: d[..n]
  }

  function Parent(p: Path): Path
    requires p != []
  {
    p[..|p| - 1]
  }

  lemma ProperPrefixIsAncestor(d: Path, p: Path)
    requires p != [] && d < p
    ensures d <= Parent(p) && d in Prefixes(Parent(p))
  {
    assert d == Parent(p)[..|d|];
  }

  lemma ObstructedAbove<T>(t: Tree<T>, p: Path)
    requires p != []
    ensures t.Obstructed(p) <==> Parent(p) in t.files || t.Obstructed(Parent(p))
  {
    forall f | f in t.files
      ensures f < p <==> f == Parent(p) || f < Parent(p)
    {
      if f < p { ProperPrefixIsAncestor(f, p); }
    }
  }

  // ---- placing ----

  lemma PlaceWf<T>(t: Tree<T>, p: Path, v: T)
    requires t.Wf() && p != [] && AllPlain(p) && t.Placeable(p)
    ensures t.Place(p, v).Wf()
    ensures t.MkdirAll(Parent(p)) == Some(Tree(t.files, t.dirs + Prefixes(Parent(p))))
  {
    var u := t.Place(p, v);
    forall n: nat | n < |p|
      ensures p[..n] !in t.files && p[..n] in u.dirs
    {
      assert p[..n] < p;
      ProperPrefixIsAncestor(p[..n], p);
    }
    forall q, n: nat | u.Has(q) && n < |q|
      ensures q[..n] in u.dirs
    {
      if !t.Has(q) {
        assert q <= p;
        assert q[..n] == p[..n];
      } else {
        assert t.Has(q);
      }
    }
    forall q | u.Has(q)
      ensures AllPlain(q)
    {
      if t.Has(q) {
      } else {
        assert forall s :: s in q ==> s in p;
      }
    }
    assert Parent(p) == p[..|p| - 1];
    forall f | f in t.files
      ensures !(f < Parent(p))
    {
      assert f < Parent(p) ==> f < p;
    }
  }

  lemma PlaceTidy<T>(t: Tree<T>, p: Path, v: T)
    requires t.Wf() && p != [] && t.Tidy()
    ensures t.Place(p, v).Tidy()
  {
    var u := t.Place(p, v);
    forall d | d in u.dirs && 2 <= |d|
      ensures u.HasFileBelow(d)
    {
      if d in t.dirs {
        assert t.HasFileBelow(d);
        var f :| f in t.files && d < f;
        assert f in u.files;
      } else {
        assert p in u.files && d < p;
      }
    }
  }

  /** In a tidy tree directories are invisible: whether a file can be placed depends on files alone. */
  lemma PlaceableByFiles<T>(t: Tree<T>, p: Path)
    requires t.Wf() && t.Tidy() && 2 <= |p|
    ensures t.Placeable(p) <==> forall f :: f in t.files ==> !(f < p) && !(p < f)
  {
    forall f | f in t.files && p < f
      ensures p in t.dirs
    {
      assert t.Has(f) && f[..|p|] == p;
    }
  }

  // ---- removing ----

  lemma RemoveFileWf<T>(t: Tree<T>, p: Path)
    requires t.Wf()
    ensures Tree(t.files - {p}, t.dirs).Wf()
  {
    var u := Tree(t.files - {p}, t.dirs);
    assert forall q :: u.Has(q) ==> t.Has(q);
  }

  lemma RemoveEmptyDirWf<T>(t: Tree<T>, p: Path)
    requires t.Wf() && p != [] && !t.HasEntries(p)
    ensures Tree(t.files, t.dirs - {p}).Wf()
  {
    var u := Tree(t.files, t.dirs - {p});
    forall q, n: nat | u.Has(q) && n < |q|
      ensures q[..n] in u.dirs
    {
      assert t.Has(q) && q[..n] < q && q in t.files.Keys + t.dirs;
    }
    assert forall q :: u.Has(q) ==> t.Has(q);
  }

  lemma PrunedWf<T>(t: Tree<T>, d: Path)
    requires t.Wf()
    ensures t.Pruned(d).Wf()
    ensures t.Pruned(d).files == t.files
  {
    var u := t.Pruned(d);
    if d in t.dirs {
      forall q, n: nat | u.Has(q) && n < |q|
        ensures q[..n] in u.dirs
      {
        assert t.Has(q) && q[..n] in t.dirs && q[..n] < q;
        if t.Prunable(q[..n], d) {
          assert q in t.dirs && q <= d && |q| > |q[..n]| >= 2;
          forall r | t.Has(r) && q < r
            ensures r in t.dirs && r <= d
          {
            assert q[..n] < r;
          }
          assert t.Prunable(q, d);
        }
      }
      assert forall q :: u.Has(q) ==> t.Has(q);
    }
  }

  /** Pruning takes away only directories on the way down to where it starts, never a bucket root, and never one with
      a file somewhere beneath it. */
  lemma PrunedKeeps<T>(t: Tree<T>, d: Path, e: Path)
    requires t.Wf() && e in t.dirs
    ensures |e| <= 1 || !(e <= d) || t.HasFileBelow(e) ==> e in t.Pruned(d).dirs
    ensures t.Pruned(d).dirs <= t.dirs
  {
    if f :| f in t.files && e < f {
      assert t.Has(f);
    }
  }

  /** Nothing is pruned above a directory that still has a file beneath it. */
  lemma PrunedNothing<T>(t: Tree<T>, d: Path)
    requires t.Wf() && t.Tidy()
    ensures t.Pruned(d) == t
  {
    if d in t.dirs {
      forall e | e in t.dirs
        ensures !t.Prunable(e, d)
      {
        if 2 <= |e| && e <= d {
          assert t.HasFileBelow(d);
          var f :| f in t.files && d < f;
          assert t.Has(f) && e < f;
        }
      }
      assert (set e | e in t.dirs && !t.Prunable(e, d)) == t.dirs;
    }
  }

  /** Unlinking a file and pruning its empty parents keeps every remaining directory non-empty. */
  lemma DeleteTidy<T>(t: Tree<T>, p: Path)
    requires t.Wf() && t.Tidy() && p in t.files && p != []
    ensures Tree(t.files - {p}, t.dirs).Pruned(Parent(p)).Tidy()
  {
    var u := Tree(t.files - {p}, t.dirs);
    var w := u.Pruned(Parent(p));
    assert t.Has(p) && Parent(p) == p[..|p| - 1];
    assert Parent(p) in t.dirs;
    forall e | e in w.dirs && 2 <= |e|
      ensures w.HasFileBelow(e)
    {
      ChainBelow(t, e, p);
      assert !u.Prunable(e, Parent(p));
      var f :| f in u.files && e < f;
      assert f in w.files;
    }
  }

  lemma ChainBelow<T>(t: Tree<T>, e: Path, p: Path)
    requires t.Wf() && t.Tidy() && p in t.files && p != []
    requires e in t.dirs && 2 <= |e|
    ensures var u := Tree(t.files - {p}, t.dirs);
            u.HasFileBelow(e) || (e <= Parent(p) && u.OnlyChain(e, Parent(p)))
  {
    var u := Tree(t.files - {p}, t.dirs);
    if !u.HasFileBelow(e) {
      forall q | q in t.dirs && e <= q
        ensures q <= Parent(p)
      {
        assert t.HasFileBelow(q);
        var f :| f in t.files && q < f;
        assert e < f && (f != p ==> f in u.files);
        ProperPrefixIsAncestor(q, p);
      }
      assert forall q :: u.Has(q) && e < q ==> q !in u.files;
    }
  }
}
