/** Object keys and the files they name. */
module Paths {
  import opened Wrappers
  import opened Text

  /** A path as the sequence of its segments. */
  type Path = seq<string>

  const SEPARATOR := '/'
  const TEMP_PREFIX := ".upload-"

  /** A name a directory entry can have, other than the parent reference. */
  predicate Plain(segment: string) {
    segment != "" && segment != "." && SEPARATOR !in segment
  }

  predicate AllPlain(p: Path) {
    forall s :: s in p ==> Plain(s)
  }

  // ---- keys to paths ----

  predicate Dropped(segment: string) {
    segment == "" || segment == "."
  }

  /** `filepath.Clean` below an absolute directory: empty and "." segments vanish, ".." climbs. */
  function CleanFrom(dir: Path, parts: Path): Path
    decreases |parts|
  {
    if parts == [] then dir
    else if Dropped(parts[0]) then CleanFrom(dir, parts[1..])
    else if parts[0] == ".." then CleanFrom(if dir == [] then [] else dir[..|dir| - 1], parts[1..])
    else CleanFrom(dir + [parts[0]], parts[1..])
  }

  /** The segments that survive cleaning when none of them is "..". */
  function Clean(parts: Path): (p: Path)
    ensures (forall s :: s in parts ==> SEPARATOR !in s) ==> AllPlain(p)
    ensures |p| <= |parts|
  {
    if parts == [] then []
    else if Dropped(parts[0]) then Clean(parts[1..])
    else [parts[0]] + Clean(parts[1..])
  }

  function CleanKey(key: string): (p: Path)
    ensures AllPlain(p)
  {
    Clean(Split(key, SEPARATOR))
  }

  /** No empty and no "." segment: the key is spelled the way a directory walk spells it. */
  predicate Canonical(key: string) {
    forall s :: s in Split(key, SEPARATOR) ==> !Dropped(s)
  }

  /** The text checks of `ResolveObjectPath`; `blank` is "trims to the empty string". */
  predicate Acceptable(blank: string -> bool, key: string) {
    !blank(key) && !("/" <= key) && !Contains(key, "..") && '\0' !in key
  }

  function AbsolutePath(p: Path): string {
    if p == [] then "/" else "/" + Join(p, SEPARATOR)
  }

  datatype Rejection = Malformed | EscapesBucket

  lemma TwoDotsAt(key: string, i: nat)
    ensures OccursAt(key, "..", i) <==> i < |key| - 1 && key[i] as int == 46 && key[i + 1] as int == 46
  {
    if i + 2 <= |key| { assert key[i..i + 2] == [key[i], key[i + 1]]; }
  }

  /** Index by index: not blank, no slash first, no two dots in a row, no zero byte. */
  lemma AcceptableIff(blank: string -> bool, key: string)
    ensures Acceptable(blank, key) <==>
              && !blank(key)
              && !(|key| > 0 && key[0] as int == 47)
              && (forall i: nat :: i < |key| - 1 ==> !(key[i] as int == 46 && key[i + 1] as int == 46))
              && (forall i :: 0 <= i < |key| ==> key[i] as int != 0)
  {
    hide Contains, OccursAt;
    ContainsIff(key, "..");
    if Contains(key, "..") {
      var i: nat :| OccursAt(key, "..", i);
      TwoDotsAt(key, i);
    }
    forall i: nat | i < |key| - 1 && key[i] as int == 46 && key[i + 1] as int == 46
      ensures Contains(key, "..")
    {
      TwoDotsAt(key, i);
      assert OccursAt(key, "..", i);
    }
    forall i | 0 <= i < |key|
      ensures key[i] as int == 0 ==> '\0' in key
    {
      assert key[i] as int == 0 ==> key[i] == '\0';
    }
  }

  /** The file a key names, with `dir` the segments of the bucket's absolute directory. */
  function ResolveObjectPath(blank: string -> bool, dir: Path, key: string): Result<string, Rejection>
  {
    if !Acceptable(blank, key) then Failure(Malformed)
    else
      var resolved := AbsolutePath(CleanFrom(dir, Split(key, SEPARATOR)));
      if AbsolutePath(dir) + "/" <= resolved then Success(resolved) else Failure(EscapesBucket)
  }

  /** The same decision, with the path given relative to the bucket directory. */
  function Resolve(blank: string -> bool, key: string): (r: Option<Path>)
    ensures r.Some? ==> r.value == CleanKey(key) != []
  {
    if Acceptable(blank, key) && CleanKey(key) != [] then Some(CleanKey(key)) else None
  }

  lemma {:induction false} CleanFromWithoutClimbing(dir: Path, parts: Path)
    requires ".." !in parts
    ensures CleanFrom(dir, parts) == dir + Clean(parts)
    decreases |parts|
  {
    if parts != [] {
      if Dropped(parts[0]) {
        CleanFromWithoutClimbing(dir, parts[1..]);
      } else {
        CleanFromWithoutClimbing(dir + [parts[0]], parts[1..]);
      }
    }
  }

  lemma {:induction false} ContainsSuffix(s: string, n: nat, w: string)
    requires n <= |s| && Contains(s[n..], w)
    ensures Contains(s, w)
  {
    if n > 0 {
      assert s[1..][n - 1..] == s[n..];
      ContainsSuffix(s[1..], n - 1, w);
    }
  }

  lemma {:induction false} ContainsPrefix(s: string, n: nat, w: string)
    requires n <= |s| && Contains(s[..n], w)
    ensures Contains(s, w)
  {
    if !(w <= s[..n]) {
      assert s[..n][1..] == s[1..][..n - 1];
      ContainsPrefix(s[1..], n - 1, w);
    }
  }

  lemma {:induction false} ContainsPiece(s: string, c: char, piece: string, w: string)
    requires piece in Split(s, c) && Contains(piece, w)
    ensures Contains(s, w)
    decreases |s|
  {
    var i := IndexOf(s, c);
    if i < |s| && piece != s[..i] {
      ContainsPiece(s[i + 1..], c, piece, w);
      ContainsSuffix(s, i + 1, w);
    } else {
      assert s[..|s|] == s;
      assert piece == s[..i];
      ContainsPrefix(s, i, w);
    }
  }

  lemma {:induction false} JoinAppend(p: Path, q: Path)
    requires p != [] && q != []
    ensures Join(p + q, SEPARATOR) == Join(p, SEPARATOR) + "/" + Join(q, SEPARATOR)
  {
    if |p| == 1 {
      assert (p + q)[1..] == q;
    } else {
      JoinAppend(p[1..], q);
      assert (p + q)[1..] == p[1..] + q;
    }
  }

  /** An accepted key names a file strictly below the bucket directory, at its cleaned segments;
      it is refused exactly when a text check fails or nothing is left after cleaning. */
  lemma ResolvesStrictlyBelow(blank: string -> bool, dir: Path, key: string)
    requires dir != []
    ensures var r := ResolveObjectPath(blank, dir, key);
            match Resolve(blank, key)
            case Some(p) => r == Success(AbsolutePath(dir + p)) && AbsolutePath(dir) + "/" < r.value && ".." !in p
            case None => r.Failure?
  {
    if Acceptable(blank, key) {
      var parts := Split(key, SEPARATOR);
      if ".." in parts {
        ContainsPiece(key, SEPARATOR, "..", "..");
      }
      CleanFromWithoutClimbing(dir, parts);
      var p := Clean(parts);
      if p != [] {
        JoinAppend(dir, p);
        CleanKeeps(parts, "..");
        JoinNonEmpty(p);
      } else {
        assert dir + p == dir;
      }
    }
  }

  lemma JoinNonEmpty(p: Path)
    requires p != [] && AllPlain(p)
    ensures Join(p, SEPARATOR) != ""
  {
    assert Plain(p[0]);
  }

  lemma {:induction false} CleanKeeps(parts: Path, s: string)
    requires s !in parts
    ensures s !in Clean(parts)
  {
    if parts != [] { CleanKeeps(parts[1..], s); }
  }

  // ---- paths back to keys ----

  /** The key a directory walk reports for the path `p` below a bucket. */
  function KeyOf(p: Path): string
    requires p != []
  {
    Join(p, SEPARATOR)
  }

  lemma {:induction false} CleanOfUndropped(parts: Path)
    requires forall s :: s in parts ==> !Dropped(s)
    ensures Clean(parts) == parts
  {
    if parts != [] { CleanOfUndropped(parts[1..]); }
  }

  lemma SplitKeyOf(p: Path)
    requires p != [] && AllPlain(p)
    ensures Split(KeyOf(p), SEPARATOR) == p
    ensures Canonical(KeyOf(p)) && CleanKey(KeyOf(p)) == p
  {
    forall s | s in p
      ensures SEPARATOR !in s && !Dropped(s)
    {
      assert Plain(s);
    }
    SplitJoin(p, SEPARATOR);
    CleanOfUndropped(p);
  }

  /** The walk's relative path gives back the key exactly when the key is canonical. */
  lemma CanonicalRoundTrip(key: string)
    ensures Canonical(key) <==> CleanKey(key) != [] && KeyOf(CleanKey(key)) == key
    ensures Canonical(key) ==> CleanKey(key) == Split(key, SEPARATOR)
  {
    if Canonical(key) {
      CleanOfUndropped(Split(key, SEPARATOR));
      JoinSplit(key, SEPARATOR);
    } else if CleanKey(key) != [] {
      SplitKeyOf(CleanKey(key));
    }
  }

  // ---- walk keys as request keys ----

  lemma {:induction false} CleanFromParts(parts: Path, s: string)
    requires s in Clean(parts)
    ensures s in parts
  {
    if !Dropped(parts[0]) && s == parts[0] {
    } else {
      CleanFromParts(parts[1..], s);
    }
  }

  /** Two dots in a row lie within one of two parts a separator keeps apart. */
  lemma {:induction false} DotsWithinParts(a: string, b: string)
    requires Contains(a + "/" + b, "..")
    ensures Contains(a, "..") || Contains(b, "..")
  {
    var s := a + "/" + b;
    if a == "" {
      assert s[0] == '/' && s[1..] == b;
    } else if ".." <= s {
      assert s[|a|] == '/' && s[0] == '.' && s[1] == '.';
      assert a == s[..|a|];
    } else {
      assert s[1..] == a[1..] + "/" + b;
      DotsWithinParts(a[1..], b);
    }
  }

  lemma {:induction false} DotsWithinSegments(p: Path)
    requires p != [] && Contains(KeyOf(p), "..")
    ensures exists s :: s in p && Contains(s, "..")
  {
    if |p| == 1 {
      assert p[0] in p;
    } else {
      DotsWithinParts(p[0], KeyOf(p[1..]));
      if Contains(p[0], "..") {
        assert p[0] in p;
      } else {
        DotsWithinSegments(p[1..]);
        var s :| s in p[1..] && Contains(s, "..");
        assert s in p;
      }
    }
  }

  lemma {:induction false} CharsOfSegments(p: Path, c: char)
    requires p != [] && c != SEPARATOR && c in KeyOf(p)
    ensures exists s :: s in p && c in s
  {
    if |p| == 1 || c in p[0] {
      assert p[0] in p;
    } else {
      assert KeyOf(p) == p[0] + [SEPARATOR] + KeyOf(p[1..]);
      CharsOfSegments(p[1..], c);
      var s :| s in p[1..] && c in s;
      assert s in p;
    }
  }

  lemma {:induction false} CharsOfPieces(s: string, c: char, piece: string, x: char)
    requires piece in Split(s, c) && x in piece
    ensures x in s
    decreases |s|
  {
    var i := IndexOf(s, c);
    if i < |s| && piece != s[..i] {
      CharsOfPieces(s[i + 1..], c, piece, x);
    }
  }

  /** The key under which the walk lists a stored file is itself accepted by every request, unless it trims to
      nothing. */
  lemma WalkKeyAcceptableIff(blank: string -> bool, key: string)
    requires Acceptable(blank, key) && CleanKey(key) != []
    ensures Acceptable(blank, KeyOf(CleanKey(key))) <==> !blank(KeyOf(CleanKey(key)))
  {
    var p := CleanKey(key);
    if Contains(KeyOf(p), "..") {
      DotsWithinSegments(p);
      var s :| s in p && Contains(s, "..");
      CleanFromParts(Split(key, SEPARATOR), s);
      ContainsPiece(key, SEPARATOR, s, "..");
    }
    if '\0' in KeyOf(p) {
      CharsOfSegments(p, '\0');
      var s :| s in p && '\0' in s;
      CleanFromParts(Split(key, SEPARATOR), s);
      CharsOfPieces(key, SEPARATOR, s, '\0');
    }
    FirstSegmentFirst(p);
  }

  lemma FirstSegmentFirst(p: Path)
    requires p != [] && AllPlain(p)
    ensures !("/" <= KeyOf(p))
  {
    assert Plain(p[0]) && p[0][0] in p[0] && KeyOf(p)[0] == p[0][0];
  }

  /** Two different canonical keys never name one file, and no file is shared between two directories
      of the same depth: buckets `root/a` and `root/b`, or a bucket and the sidecar tree. */
  lemma ResolutionInjective(p: Path, q: Path)
    requires p != [] && q != [] && AllPlain(p) && AllPlain(q)
    requires AbsolutePath(p) == AbsolutePath(q)
    ensures p == q
  {
    assert AbsolutePath(p)[1..] == KeyOf(p) && AbsolutePath(q)[1..] == KeyOf(q);
    SplitKeyOf(p);
    SplitKeyOf(q);
  }

  /** Files the directory walk reports: in-flight upload files are skipped by name. */
  predicate Visible(p: Path) {
    p != [] && !(TEMP_PREFIX <= p[|p| - 1])
  }

  /** Literally: the walk skips a file whose name begins with these eight characters. */
  lemma VisibleIff(p: Path, name: string)
    ensures Visible(p + [name]) <==>
              !(|name| >= 8 && name[0] == '.' && name[1] == 'u' && name[2] == 'p' && name[3] == 'l'
                && name[4] == 'o' && name[5] == 'a' && name[6] == 'd' && name[7] == '-')
  {
    assert (p + [name])[|p|] == name && |p + [name]| == |p| + 1;
    if |name| >= 8 { assert TEMP_PREFIX <= name <==> name[..8] == TEMP_PREFIX; }
  }
}
