/** Percent-encoding (section 2.1 of RFC 3986), request targets and query strings. */
module Url {
  import opened Wrappers
  import opened Text
  import opened Signing

  predicate IsBytes(s: string) {
    forall i :: 0 <= i < |s| ==> s[i] as int < 256
  }

  // ---- printing ----

  predicate Unreserved(c: char) {
    'a' <= c <= 'z' || 'A' <= c <= 'Z' || '0' <= c <= '9' || c == '-' || c == '.' || c == '_' || c == '~'
  }

  function UpperHexDigit(d: nat): (c: char)
    requires d < 16
    ensures IsHexChar(c) && HexValue(c) == d && Unreserved(c)
  {
    if d < 10 then ('0' as int + d) as char else ('A' as int + d - 10) as char
  }

  function EscapeByte(c: char): (s: string)
    requires c as int < 256
    ensures s != ""
    ensures forall i :: 0 <= i < |s| ==> Unreserved(s[i]) || s[i] == '%'
  {
    if Unreserved(c) then [c] else ['%', UpperHexDigit(c as int / 16), UpperHexDigit(c as int % 16)]
  }

  function Escape(s: string): (e: string)
    requires IsBytes(s)
    ensures forall i :: 0 <= i < |e| ==> Unreserved(e[i]) || e[i] == '%'
    ensures s != "" ==> e != ""
  {
    if s == "" then "" else EscapeByte(s[0]) + Escape(s[1..])
  }

  lemma {:induction false} EscapeOneMore(s: string, c: char)
    requires IsBytes(s) && c as int < 256
    ensures IsBytes(s + [c]) && Escape(s + [c]) == Escape(s) + EscapeByte(c)
  {
    if s != "" {
      assert (s + [c])[1..] == s[1..] + [c];
      EscapeOneMore(s[1..], c);
    } else {
      assert "" + [c] == [c] && [c][1..] == "";
    }
  }

  /** `escapeDataString`: the builder loop. */
  method EscapeDataString(s: string) returns (e: string)
    requires IsBytes(s)
    ensures e == Escape(s)
  {
    e := "";
    for i := 0 to |s|
      invariant e == Escape(s[..i])
    {
      EscapeOneMore(s[..i], s[i]);
      assert s[..i + 1] == s[..i] + [s[i]];
      e := e + EscapeByte(s[i]);
    }
    assert s[..|s|] == s;
  }

  /** The characters printed as they are: letters, digits, and `-`, `.`, `_`, `~`. */
  lemma UnreservedIff(c: char)
    ensures Unreserved(c) <==>
              || 48 <= c as int <= 57 || 65 <= c as int <= 90 || 97 <= c as int <= 122
              || c as int in {45, 46, 95, 126}
  {
  }

  /** Every other byte is printed as a percent sign and two upper-case digits. */
  lemma EscapeByteIs(c: char)
    requires c as int < 256
    ensures EscapeByte(c) == if Unreserved(c) then [c]
                             else ['%', "0123456789ABCDEF"[c as int / 16], "0123456789ABCDEF"[c as int % 16]]
  {
  }

  // ---- parsing ----

  /** The percent-decoder; in a query component `+` also stands for a space. */
  function Unescape(s: string, query: bool): Option<string> {
    if s == "" then Some("")
    else if s[0] == '%' then
      if |s| >= 3 && IsHexChar(s[1]) && IsHexChar(s[2]) then
        Prepend((16 * HexValue(s[1]) + HexValue(s[2])) as char, Unescape(s[3..], query))
      else None
    else Prepend(if query && s[0] == '+' then ' ' else s[0], Unescape(s[1..], query))
  }

  function Prepend(c: char, rest: Option<string>): Option<string> {
    if rest.Some? then Some([c] + rest.value) else None
  }

  function Append(first: string, rest: Option<string>): Option<string> {
    if rest.Some? then Some(first + rest.value) else None
  }

  /** Decoding undoes encoding, and goes on with whatever follows. */
  lemma {:induction false} UnescapeEscape(s: string, rest: string, query: bool)
    requires IsBytes(s)
    ensures Unescape(Escape(s) + rest, query) == Append(s, Unescape(rest, query))
  {
    if s == "" {
      assert Escape(s) + rest == rest;
      AppendNothing(Unescape(rest, query));
    } else {
      var tail := Escape(s[1..]) + rest;
      assert Escape(s) + rest == EscapeByte(s[0]) + tail;
      UnescapeByte(s[0], tail, query);
      UnescapeEscape(s[1..], rest, query);
      PrependAppend(s, Unescape(rest, query));
    }
  }

  lemma AppendNothing(rest: Option<string>)
    ensures Append("", rest) == rest
  {
    if rest.Some? { assert "" + rest.value == rest.value; }
  }

  lemma PrependAppend(s: string, rest: Option<string>)
    requires s != ""
    ensures Prepend(s[0], Append(s[1..], rest)) == Append(s, rest)
  {
    if rest.Some? { assert [s[0]] + (s[1..] + rest.value) == s + rest.value; }
  }

  lemma UnescapeByte(c: char, tail: string, query: bool)
    requires c as int < 256
    ensures Unescape(EscapeByte(c) + tail, query) == Prepend(c, Unescape(tail, query))
  {
    var e := EscapeByte(c) + tail;
    if Unreserved(c) {
      assert e[0] == c && e[1..] == tail;
    } else {
      assert e[0] == '%' && e[3..] == tail && e[1] == UpperHexDigit(c as int / 16)
             && e[2] == UpperHexDigit(c as int % 16);
      assert 16 * (c as int / 16) + c as int % 16 == c as int;
    }
  }

  lemma UnescapePlain(c: char, tail: string, query: bool)
    requires c != '%' && c != '+'
    ensures Unescape([c] + tail, query) == Prepend(c, Unescape(tail, query))
  {
    assert ([c] + tail)[1..] == tail;
  }

  // ---- paths ----

  /** Every segment escaped, the separators kept. */
  function EscapeSegments(parts: seq<string>): seq<string>
    requires forall p :: p in parts ==> IsBytes(p)
  {
    if parts == [] then [] else [Escape(parts[0])] + EscapeSegments(parts[1..])
  }

  predicate AllBytes(parts: seq<string>) {
    forall p :: p in parts ==> IsBytes(p)
  }

  lemma {:induction false} UnescapeSegments(parts: seq<string>, rest: string)
    requires parts != [] && AllBytes(parts)
    ensures EscapeSegments(parts) != []
    ensures Unescape(Join(EscapeSegments(parts), '/') + rest, false) == Append(Join(parts, '/'), Unescape(rest, false))
  {
    hide Unescape, Escape;
    var first, more := parts[0], parts[1..];
    if |parts| == 1 {
      assert EscapeSegments(more) == [];
      assert EscapeSegments(parts) == [Escape(first)];
      UnescapeEscape(first, rest, false);
    } else {
      UnescapeSegments(more, rest);
      var tail := Join(EscapeSegments(more), '/') + rest;
      JoinCons(Escape(first), EscapeSegments(more), '/');
      assert Join(EscapeSegments(parts), '/') + rest == Escape(first) + (['/'] + tail);
      UnescapeEscape(first, ['/'] + tail, false);
      UnescapePlain('/', tail, false);
      JoinCons(first, more, '/');
      assert parts == [first] + more;
      AppendJoin(first, Join(more, '/'), Unescape(rest, false));
    }
  }

  lemma AppendJoin(first: string, more: string, rest: Option<string>)
    ensures Append(first, Prepend('/', Append(more, rest))) == Append(first + ['/'] + more, rest)
  {
    if rest.Some? {
      assert first + (['/'] + (more + rest.value)) == first + ['/'] + more + rest.value;
    }
  }

  lemma {:induction false} SplitBytes(s: string, c: char)
    requires IsBytes(s)
    ensures AllBytes(Split(s, c))
    decreases |s|
  {
    var i := IndexOf(s, c);
    if i < |s| { SplitBytes(s[i + 1..], c); }
  }

  /** The request path as `presign` prints it: split at slashes, each segment escaped. */
  function EscapePath(path: string): string
    requires IsBytes(path)
  {
    SplitBytes(path, '/');
    var parts := EscapeSegments(Split(path, '/'));
    if parts == [] then "" else Join(parts, '/')
  }

  /** The printed path percent-decodes, once, to the path that was signed. */
  lemma EscapedPathDecodes(path: string)
    requires IsBytes(path)
    ensures Unescape(EscapePath(path), false) == Some(path)
  {
    SplitBytes(path, '/');
    JoinSplit(path, '/');
    UnescapeSegments(Split(path, '/'), "");
    assert EscapePath(path) + "" == EscapePath(path);
    assert path + "" == path;
  }

  /** Nothing printed for a path can end it early. */
  lemma {:induction false} EscapedSegmentsChars(parts: seq<string>, c: char)
    requires parts != [] && AllBytes(parts) && !Unreserved(c) && c != '%' && c != '/'
    ensures EscapeSegments(parts) != [] && c !in Join(EscapeSegments(parts), '/')
  {
    if |parts| == 1 {
      assert EscapeSegments(parts) == [Escape(parts[0])];
    } else {
      EscapedSegmentsChars(parts[1..], c);
      JoinCons(Escape(parts[0]), EscapeSegments(parts[1..]), '/');
    }
  }

  lemma EscapedPathChars(path: string, c: char)
    requires IsBytes(path) && !Unreserved(c) && c != '%' && c != '/'
    ensures c !in EscapePath(path)
  {
    SplitBytes(path, '/');
    EscapedSegmentsChars(Split(path, '/'), c);
  }

  // ---- query strings ----

  type Query = seq<(string, string)>

  /** One `name=value` piece; a piece that does not decode is dropped. */
  function ParsePiece(piece: string): Query {
    if piece == "" || ';' in piece then []
    else
      var i := IndexOf(piece, '=');
      var name := Unescape(piece[..i], true);
      var value := Unescape(if i < |piece| then piece[i + 1..] else "", true);
      if name.Some? && value.Some? then [(name.value, value.value)] else []
  }

  function ParsePieces(pieces: seq<string>): Query {
    if pieces == [] then [] else ParsePiece(pieces[0]) + ParsePieces(pieces[1..])
  }

  function ParseQuery(raw: string): Query {
    ParsePieces(Split(raw, '&'))
  }

  /** The first value of a name, as `Query().Get` finds it. */
  function Lookup(q: Query, name: string): Option<string> {
    if q == [] then None else if q[0].0 == name then Some(q[0].1) else Lookup(q[1..], name)
  }

  /** A request target: the path, decoded once, and the query after the first question mark. */
  function ParseTarget(target: string): Option<(string, Query)> {
    var i := IndexOf(target, '?');
    var path := Unescape(target[..i], false);
    if path.None? then None
    else Some((path.value, if i < |target| then ParseQuery(target[i + 1..]) else []))
  }

  /** In a query a plus sign stands for a space, in a path for itself. */
  lemma UnescapePlusIs(rest: string)
    requires Unescape(rest, true).Some? && Unescape(rest, false).Some?
    ensures Unescape("+" + rest, true) == Some(" " + Unescape(rest, true).value)
    ensures Unescape("+" + rest, false) == Some("+" + Unescape(rest, false).value)
  {
    assert ("+" + rest)[1..] == rest;
  }

  /** A percent sign without two digits after it is refused, wherever it stands. */
  lemma {:induction false} UnescapeRefuses(s: string, i: nat, query: bool)
    requires i < |s| && s[i] == '%' && !(i + 2 < |s| && IsHexChar(s[i + 1]) && IsHexChar(s[i + 2]))
    requires forall j :: 0 <= j < i ==> s[j] != '%'
    ensures Unescape(s, query) == None
  {
    if i > 0 { UnescapeRefuses(s[1..], i - 1, query); }
  }

  /** The first of several values of a name counts. */
  lemma {:induction false} LookupIff(q: Query, name: string, value: string)
    ensures Lookup(q, name) == None <==> forall i :: 0 <= i < |q| ==> q[i].0 != name
    ensures Lookup(q, name) == Some(value) <==>
              exists i :: 0 <= i < |q| && q[i] == (name, value) && forall j :: 0 <= j < i ==> q[j].0 != name
  {
    if q != [] {
      LookupIff(q[1..], name, value);
      assert forall i :: 0 < i < |q| ==> q[i] == q[1..][i - 1];
      assert forall i :: 0 <= i < |q| - 1 ==> q[1..][i] == q[i + 1];
    }
  }

  /** Dropped: an empty piece, one with a semicolon, and one whose name or value does not decode. */
  lemma PieceDropped(piece: string)
    ensures piece == "" || ';' in piece ==> ParsePiece(piece) == []
    ensures '=' !in piece && Unescape(piece, true).None? ==> ParsePiece(piece) == []
  {
    if '=' !in piece { assert piece[..|piece|] == piece; }
  }

  lemma PairDropped(name: string, value: string)
    requires '=' !in name && (Unescape(name, true).None? || Unescape(value, true).None?)
    ensures ParsePiece(name + "=" + value) == []
  {
    hide Unescape, IndexOf;
    var piece := name + ['='] + value;
    assert piece == name + "=" + value;
    IndexOfAppend(name, '=', value);
    assert piece[..|name|] == name && piece[|name| + 1..] == value;
  }

  /** A name without a value has the empty one. */
  lemma BareName(name: string)
    requires name != "" && '=' !in name && ';' !in name && Unescape(name, true).Some?
    ensures ParsePiece(name) == [(Unescape(name, true).value, "")]
  {
    assert name[..|name|] == name;
  }

  /** A target without a question mark is all path; one whose path does not decode is refused. */
  lemma TargetIsPath(target: string)
    requires '?' !in target
    ensures ParseTarget(target)
            == var path := Unescape(target, false); if path.None? then None else Some((path.value, []))
  {
    hide Unescape;
    assert target[..|target|] == target;
  }

  lemma UndecodablePath(path: string, query: string)
    requires '?' !in path && Unescape(path, false).None?
    ensures ParseTarget(path + "?" + query) == None
  {
    hide Unescape, IndexOf;
    var target := path + ['?'] + query;
    assert target == path + "?" + query;
    IndexOfAppend(path, '?', query);
    assert target[..|path|] == path;
  }

  /** A parameter whose name and value need no attention parses to itself. */
  lemma PieceParses(name: string, value: string, printed: string)
    requires name != "" && forall i :: 0 <= i < |name| ==> Unreserved(name[i])
    requires Unescape(printed, true) == Some(value) && ';' !in printed
    ensures ParsePiece(name + "=" + printed) == [(name, value)]
  {
    var piece := name + ['='] + printed;
    assert piece == name + "=" + printed;
    IndexOfAppend(name, '=', printed);
    assert piece[..|name|] == name && piece[|name| + 1..] == printed;
    UnescapeUnreserved(name);
  }

  lemma {:induction false} UnescapeUnreserved(s: string)
    requires forall i :: 0 <= i < |s| ==> Unreserved(s[i])
    ensures Unescape(s, true) == Some(s)
  {
    if s != "" {
      UnescapeUnreserved(s[1..]);
      assert s == [s[0]] + s[1..];
      UnescapePlain(s[0], s[1..], true);
    }
  }
}
