/** Strings as JavaScript and PostgreSQL see them in the post filter:
    ASCII case folding, substring search, and `String.prototype.split`
    on a one-character separator together with its inverse `join`. */
module Text {

  predicate IsUpper(c: char) {
    'A' <= c <= 'Z'
  }

  /** ASCII lower-casing of one character; every other character is kept. */
  function LowerChar(c: char): (d: char)
    ensures !IsUpper(d)
    ensures IsUpper(c) || d == c
  {
    if IsUpper(c) then (c as int + 32) as char else c
  }

  function Lower(s: string): (r: string)
    ensures |r| == |s|
    ensures forall i :: 0 <= i < |s| ==> r[i] == LowerChar(s[i])
  {
    seq(|s|, i requires 0 <= i < |s| => LowerChar(s[i]))
  }

  /** `needle` occurs in `hay` starting at position `i`. */
  predicate OccursAt(needle: string, hay: string, i: int) {
    0 <= i && i + |needle| <= |hay| && hay[i..i + |needle|] == needle
  }

  /** `needle` occurs as a contiguous piece of `hay`. */
  predicate IsSubstring(needle: string, hay: string) {
    exists i | 0 <= i <= |hay| :: OccursAt(needle, hay, i)
  }

  /** Case-insensitive containment, comparing the ASCII lower-cased forms. */
  predicate ContainsInsensitive(hay: string, needle: string) {
    IsSubstring(Lower(needle), Lower(hay))
  }

  /** Lower-casing commutes with taking a slice. */
  lemma LowerSlice(s: string, i: nat, j: nat)
    requires i <= j <= |s|
    ensures Lower(s)[i..j] == Lower(s[i..j])
  {
  }

  /** A case-sensitive occurrence is also a case-insensitive one. */
  lemma SensitiveImpliesInsensitive(hay: string, needle: string)
    ensures IsSubstring(needle, hay) ==> ContainsInsensitive(hay, needle)
  {
    if IsSubstring(needle, hay) {
      var i :| 0 <= i <= |hay| && OccursAt(needle, hay, i);
      assert i + |needle| <= |hay|;
      LowerSlice(hay, i, i + |needle|);
      assert OccursAt(Lower(needle), Lower(hay), i);
    }
  }

  /** The empty search string occurs in every string. */
  lemma EmptyOccursEverywhere(hay: string)
    ensures ContainsInsensitive(hay, "")
  {
    assert OccursAt(Lower(""), Lower(hay), 0);
  }

  /** Number of occurrences of `c` in `s`. */
  function Occurrences(s: string, c: char): nat {
    multiset(s)[c]
  }

  /** JavaScript `s.split(sep)` for a one-character separator: the pieces
      between separators, empty pieces included; `"".split(sep)` is `[""]`. */
  function Split(s: string, sep: char): (pieces: seq<string>)
    ensures |pieces| == Occurrences(s, sep) + 1
    ensures forall k :: 0 <= k < |pieces| ==> sep !in pieces[k]
    decreases |s|
  {
    if s == [] then [[]]
    else
      assert s == [s[0]] + s[1..];
      var rest := Split(s[1..], sep);
      if s[0] == sep then [[]] + rest
      else [[s[0]] + rest[0]] + rest[1..]
  }

  /** JavaScript `pieces.join(sep)` for a one-character separator. */
  function Join(pieces: seq<string>, sep: char): string
    decreases |pieces|
  {
    if |pieces| == 0 then []
    else if |pieces| == 1 then pieces[0]
    else pieces[0] + [sep] + Join(pieces[1..], sep)
  }

  /** Gluing `x` to the front of the first piece glues it to the front
      of the join. */
  lemma JoinGlueFirst(x: string, q: seq<string>, sep: char)
    requires |q| >= 1
    ensures Join([x + q[0]] + q[1..], sep) == x + Join(q, sep)
  {
    var glued := [x + q[0]] + q[1..];
    assert glued[0] == x + q[0] && glued[1..] == q[1..];
    if |q| > 1 {
      assert Join(glued, sep) == (x + q[0]) + [sep] + Join(q[1..], sep);
      assert Join(q, sep) == q[0] + [sep] + Join(q[1..], sep);
    }
  }

  /** An empty first piece contributes only its separator. */
  lemma JoinAfterEmpty(q: seq<string>, sep: char)
    requires |q| >= 1
    ensures Join([[]] + q, sep) == [sep] + Join(q, sep)
  {
    var e: string := [];
    assert ([e] + q)[0] == e && ([e] + q)[1..] == q;
  }

  /** Joining the pieces of a split gives back the original string. */
  lemma {:induction false} JoinSplit(s: string, sep: char)
    ensures Join(Split(s, sep), sep) == s
    decreases |s|
  {
    if s != [] {
      var tail := s[1..];
      assert s == [s[0]] + tail;
      var rest := Split(tail, sep);
      JoinSplit(tail, sep);
      if s[0] == sep {
        SplitLeadingSeparator(tail, sep);
        JoinAfterEmpty(rest, sep);
      } else {
        assert Split(s, sep) == [[s[0]] + rest[0]] + rest[1..];
        JoinGlueFirst([s[0]], rest, sep);
      }
    }
  }

  /** Splitting a separator-free prefix followed by `t` glues the prefix to
      the first piece of `t`. */
  lemma {:induction false} SplitPrefix(p: string, t: string, sep: char)
    requires sep !in p
    ensures Split(p + t, sep) == [p + Split(t, sep)[0]] + Split(t, sep)[1..]
    decreases |p|
  {
    if p != [] {
      assert (p + t)[1..] == p[1..] + t;
      assert (p + t)[0] == p[0];
      SplitPrefix(p[1..], t, sep);
      assert [p[0]] + (p[1..] + Split(t, sep)[0]) == p + Split(t, sep)[0];
    } else {
      var rest := Split(t, sep);
      assert p + t == t;
      assert p + rest[0] == rest[0];
      assert rest == [rest[0]] + rest[1..];
    }
  }

  /** Splitting a join of separator-free pieces gives back the pieces. */
  lemma {:induction false} SplitJoin(pieces: seq<string>, sep: char)
    requires |pieces| >= 1
    requires forall k :: 0 <= k < |pieces| ==> sep !in pieces[k]
    ensures Split(Join(pieces, sep), sep) == pieces
    decreases |pieces|
  {
    if |pieces| == 1 {
      SplitPrefix(pieces[0], [], sep);
      assert pieces[0] + [] == pieces[0];
    } else {
      var tail := Join(pieces[1..], sep);
      SplitJoin(pieces[1..], sep);
      var after := Split([sep] + tail, sep);
      assert ([sep] + tail)[1..] == tail;
      assert after == [[]] + pieces[1..];
      assert after[0] == [] && after[1..] == pieces[1..];
      assert Join(pieces, sep) == pieces[0] + ([sep] + tail);
      SplitPrefix(pieces[0], [sep] + tail, sep);
      assert pieces[0] + after[0] == pieces[0];
      assert pieces == [pieces[0]] + pieces[1..];
    }
  }

  /** A leading separator gives an empty first piece. */
  lemma SplitLeadingSeparator(t: string, sep: char)
    ensures Split([sep] + t, sep) == [[]] + Split(t, sep)
  {
    assert ([sep] + t)[1..] == t;
  }

  /** A separator-free string is a single piece. */
  lemma SplitSinglePiece(p: string, sep: char)
    requires sep !in p
    ensures Split(p, sep) == [p]
  {
    SplitPrefix(p, [], sep);
    assert p + [] == p;
  }

  /** Two leading separators give two empty pieces before the rest. */
  lemma SplitTwoLeadingSeparators(b: string, sep: char)
    requires sep !in b
    ensures Split([sep] + ([sep] + b), sep) == [[], [], b]
  {
    SplitSinglePiece(b, sep);
    SplitLeadingSeparator(b, sep);
    SplitLeadingSeparator([sep] + b, sep);
  }

  /** Empty pieces are kept: two adjacent separators give an empty piece. */
  lemma EmptyPieceKept(a: string, b: string, sep: char)
    requires sep !in a && sep !in b
    ensures Split(a + [sep, sep] + b, sep) == [a, [], b]
  {
    var e: string := [];
    var u := [sep] + ([sep] + b);
    assert a + [sep, sep] + b == a + u by {
      assert [sep, sep] + b == u;
    }
    SplitTwoLeadingSeparators(b, sep);
    var rest := Split(u, sep);
    assert rest[0] == e && rest[1..] == [e, b];
    SplitPrefix(a, u, sep);
    assert a + e == a;
    assert Split(a + u, sep) == [a] + [e, b];
  }
}
