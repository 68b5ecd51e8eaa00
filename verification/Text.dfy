/** Byte strings: splitting at a separator, and the byte order the object table is sorted by.
    A Go string is a sequence of bytes; here each `char` stands for one byte. */
module Text {

  /** The position of the first `c` in `s`, or `|s|` when there is none. */
  function IndexOf(s: string, c: char): (i: nat)
    ensures i <= |s|
    ensures c !in s[..i]
    ensures i < |s| ==> s[i] == c
    ensures c in s <==> i < |s|
  {
    if s == [] then 0 else if s[0] == c then 0 else 1 + IndexOf(s[1..], c)
  }

  lemma {:induction false} IndexOfAppend(s: string, c: char, t: string)
    requires c !in s
    ensures IndexOf(s + [c] + t, c) == |s|
  {
    var w := s + [c] + t;
    if s != [] {
      IndexOfAppend(s[1..], c, t);
      assert w[0] == s[0] != c && w[1..] == s[1..] + [c] + t;
    }
  }

  /** The pieces of `s` between separators; always at least one piece. */
  function Split(s: string, c: char): (parts: seq<string>)
    ensures parts != []
    ensures forall p :: p in parts ==> c !in p
    decreases |s|
  {
    var i := IndexOf(s, c);
    if i < |s| then [s[..i]] + Split(s[i + 1..], c) else [s]
  }

  function Join(parts: seq<string>, c: char): string
    requires parts != []
  {
    if |parts| == 1 then parts[0] else parts[0] + [c] + Join(parts[1..], c)
  }

  lemma JoinCons(first: string, rest: seq<string>, c: char)
    requires rest != []
    ensures Join([first] + rest, c) == first + [c] + Join(rest, c)
  {
    assert ([first] + rest)[1..] == rest;
  }

  lemma JoinOne(s: string, c: char)
    ensures Join([s], c) == s
  {
  }

  lemma {:induction false} JoinSplit(s: string, c: char)
    ensures Join(Split(s, c), c) == s
    decreases |s|
  {
    hide Join, IndexOf;
    var i := IndexOf(s, c);
    if i < |s| {
      var tail := s[i + 1..];
      JoinSplit(tail, c);
      JoinCons(s[..i], Split(tail, c), c);
      assert s[..i] + [c] + tail == s;
    } else {
      JoinOne(s, c);
    }
  }

  lemma {:induction false} SplitJoin(parts: seq<string>, c: char)
    requires parts != []
    requires forall p :: p in parts ==> c !in p
    ensures Split(Join(parts, c), c) == parts
  {
    hide IndexOf, Join;
    if |parts| == 1 {
      assert parts == [parts[0]];
      JoinOne(parts[0], c);
    } else {
      var rest := parts[1..];
      assert parts == [parts[0]] + rest;
      SplitJoin(rest, c);
      JoinCons(parts[0], rest, c);
      SplitFirst(parts[0], Join(rest, c), c);
    }
  }

  lemma SplitFirst(first: string, rest: string, c: char)
    requires c !in first
    ensures Split(first + [c] + rest, c) == [first] + Split(rest, c)
  {
    hide IndexOf;
    var s := first + [c] + rest;
    IndexOfAppend(first, c, rest);
    assert s[..|first|] == first && s[|first| + 1..] == rest;
  }

  predicate Contains(s: string, w: string) {
    w <= s || (s != [] && Contains(s[1..], w))
  }

  predicate OccursAt(s: string, w: string, i: nat) {
    i + |w| <= |s| && s[i..i + |w|] == w
  }

  lemma {:induction false} ContainsIff(s: string, w: string)
    ensures Contains(s, w) <==> exists i: nat :: OccursAt(s, w, i)
  {
    if w <= s {
      assert OccursAt(s, w, 0);
    } else if s != [] {
      ContainsIff(s[1..], w);
      forall i: nat
        ensures OccursAt(s[1..], w, i) <==> OccursAt(s, w, i + 1)
      {
        if i + |w| <= |s[1..]| { assert s[1..][i..i + |w|] == s[i + 1..i + 1 + |w|]; }
      }
      if exists i: nat :: OccursAt(s, w, i) {
        var i: nat :| OccursAt(s, w, i);
        NotAtStart(s, w);
        assert OccursAt(s[1..], w, i - 1);
      }
    }
  }

  lemma NotAtStart(s: string, w: string)
    requires !(w <= s)
    ensures !OccursAt(s, w, 0)
  {
    if |w| <= |s| { assert s[0..|w|] == s[..|w|]; }
  }

  // ---- byte order ----

  /** Strict lexicographic order by byte value. */
  predicate Less(a: string, b: string) {
    b != [] && (a == [] || a[0] < b[0] || (a[0] == b[0] && Less(a[1..], b[1..])))
  }

  /** A proper prefix comes first; otherwise the first byte that differs decides. */
  ghost predicate Precedes(a: string, b: string) {
    a < b || exists i :: 0 <= i < |a| && i < |b| && a[..i] == b[..i] && a[i] < b[i]
  }

  lemma {:induction false} LessIff(a: string, b: string)
    ensures Less(a, b) <==> Precedes(a, b)
  {
    if a != [] && b != [] {
      if a[0] == b[0] {
        LessIff(a[1..], b[1..]);
        PrecedesCons(a, b);
      } else {
        forall i | 0 < i < |a| && i < |b|
          ensures a[..i] != b[..i]
        {
          assert a[..i][0] == a[0] && b[..i][0] == b[0];
        }
        assert a[..0] == b[..0];
      }
    }
  }

  lemma PrecedesCons(a: string, b: string)
    requires a != [] && b != [] && a[0] == b[0]
    ensures Precedes(a, b) <==> Precedes(a[1..], b[1..])
  {
    assert a == [a[0]] + a[1..] && b == [b[0]] + b[1..];
    assert a < b <==> a[1..] < b[1..];
    forall i | 0 <= i < |a| - 1 && i < |b| - 1
      ensures a[1..][..i] == b[1..][..i] <==> a[..i + 1] == b[..i + 1]
    {
      assert a[..i + 1] == [a[0]] + a[1..][..i] && b[..i + 1] == [b[0]] + b[1..][..i];
    }
    if i :| 0 <= i < |a| && i < |b| && a[..i] == b[..i] && a[i] < b[i] {
      assert a[1..][i - 1] < b[1..][i - 1] && a[1..][..i - 1] == b[1..][..i - 1];
    }
    if i :| 0 <= i < |a[1..]| && i < |b[1..]| && a[1..][..i] == b[1..][..i] && a[1..][i] < b[1..][i] {
      assert a[i + 1] < b[i + 1] && a[..i + 1] == b[..i + 1];
    }
  }

  lemma {:induction false} LessTrichotomy(a: string, b: string)
    ensures Less(a, b) || a == b || Less(b, a)
    ensures !(Less(a, b) && Less(b, a))
    ensures Less(a, b) ==> a != b
  {
    if a != [] && b != [] {
      LessTrichotomy(a[1..], b[1..]);
      if a[0] == b[0] {
        assert a == [a[0]] + a[1..] && b == [b[0]] + b[1..];
      }
    }
  }

  lemma {:induction false} LessTransitive(a: string, b: string, c: string)
    requires Less(a, b) && Less(b, c)
    ensures Less(a, c)
  {
    if a != [] && a[0] == b[0] == c[0] {
      LessTransitive(a[1..], b[1..], c[1..]);
    }
  }

  predicate IsLeast(k: string, s: set<string>) {
    k in s && forall x :: x in s && x != k ==> Less(k, x)
  }

  lemma {:induction false} LeastExists(s: set<string>)
    requires s != {}
    ensures exists k :: IsLeast(k, s)
  {
    var x :| x in s;
    var rest := s - {x};
    if rest == {} {
      assert s == {x};
      assert IsLeast(x, s);
    } else {
      LeastExists(rest);
      var k :| IsLeast(k, rest);
      LessTrichotomy(x, k);
      if Less(x, k) {
        forall y | y in s && y != x
          ensures Less(x, y)
        {
          if y != k { LessTransitive(x, k, y); }
        }
        assert IsLeast(x, s);
      } else {
        assert IsLeast(k, s);
      }
    }
  }

  lemma LeastUnique(s: set<string>)
    ensures forall j, k :: IsLeast(j, s) && IsLeast(k, s) ==> j == k
  {
    forall j, k | IsLeast(j, s) && IsLeast(k, s)
      ensures j == k
    {
      LessTrichotomy(j, k);
    }
  }

  function Least(s: set<string>): (k: string)
    requires s != {}
    ensures IsLeast(k, s)
  {
    LeastExists(s);
    LeastUnique(s);
    var k :| IsLeast(k, s);
    k
  }

  predicate Ascending(ks: seq<string>) {
    forall i, j :: 0 <= i < j < |ks| ==> Less(ks[i], ks[j])
  }

  function Elements(ks: seq<string>): set<string> {
    set k | k in ks
  }

  /** The members of `s` in ascending byte order: what `ORDER BY "Key"` yields. */
  function Sorted(s: set<string>): seq<string> {
    if s == {} then [] else [Least(s)] + Sorted(s - {Least(s)})
  }

  lemma ConsAscending(k: string, rest: seq<string>, s: set<string>)
    requires IsLeast(k, s) && Ascending(rest) && Elements(rest) == s - {k}
    ensures Ascending([k] + rest) && Elements([k] + rest) == s
  {
    var ks := [k] + rest;
    forall i, j | 0 <= i < j < |ks|
      ensures Less(ks[i], ks[j])
    {
      assert ks[j] == rest[j - 1] && rest[j - 1] in Elements(rest);
      if i > 0 { assert ks[i] == rest[i - 1]; }
    }
    assert Elements(ks) == {k} + Elements(rest);
  }

  lemma {:induction false} SortedFacts(s: set<string>)
    ensures Ascending(Sorted(s))
    ensures Elements(Sorted(s)) == s
    ensures |Sorted(s)| == |s|
  {
    if s != {} {
      SortedFacts(s - {Least(s)});
      ConsAscending(Least(s), Sorted(s - {Least(s)}), s);
    }
  }

  /** Ascending order and the set of members determine a sequence. */
  lemma {:induction false} AscendingUnique(a: seq<string>, b: seq<string>)
    requires Ascending(a) && Ascending(b)
    requires Elements(a) == Elements(b)
    ensures a == b
  {
    ElementsEmpty(a);
    ElementsEmpty(b);
    if a != [] {
      HeadIsLeast(a);
      HeadIsLeast(b);
      LessTrichotomy(a[0], b[0]);
      assert Elements(a[1..]) == Elements(a) - {a[0]} by { TailDropsHead(a); }
      assert Elements(b[1..]) == Elements(b) - {b[0]} by { TailDropsHead(b); }
      AscendingUnique(a[1..], b[1..]);
      assert a == [a[0]] + a[1..] && b == [b[0]] + b[1..];
    }
  }

  lemma ElementsEmpty(a: seq<string>)
    ensures Elements(a) == {} <==> a == []
  {
    if a != [] { assert a[0] in Elements(a); }
  }

  lemma HeadIsLeast(a: seq<string>)
    requires a != [] && Ascending(a)
    ensures IsLeast(a[0], Elements(a))
  {
  }

  lemma TailDropsHead(a: seq<string>)
    requires a != [] && Ascending(a)
    ensures Elements(a[1..]) == Elements(a) - {a[0]}
  {
    forall x | x in a[1..]
      ensures x != a[0]
    {
      LessTrichotomy(x, a[0]);
      var i :| 0 <= i < |a[1..]| && a[1..][i] == x;
      assert Less(a[0], a[i + 1]);
    }
    forall x | x in a && x != a[0]
      ensures x in a[1..]
    {
      var i :| 0 <= i < |a| && a[i] == x;
      assert a[1..][i - 1] == x;
    }
  }
}
