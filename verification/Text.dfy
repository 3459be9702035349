/** Go strings as the models need them: byte-wise order, sort.Strings, strings.Join. */
module Text {

  /** Go's `<=` on strings: lexicographic by character code. */
  predicate AtMost(a: string, b: string) {
    a == "" || (b != "" && (a[0] < b[0] || (a[0] == b[0] && AtMost(a[1..], b[1..]))))
  }

  lemma {:induction false} AtMostTotal(a: string, b: string)
    ensures AtMost(a, b) || AtMost(b, a)
  {
    if a != "" && b != "" {
      AtMostTotal(a[1..], b[1..]);
    }
  }

  lemma {:induction false} AtMostAntisymmetric(a: string, b: string)
    requires AtMost(a, b) && AtMost(b, a)
    ensures a == b
  {
    if a != "" {
      AtMostAntisymmetric(a[1..], b[1..]);
      assert a == [a[0]] + a[1..] && b == [b[0]] + b[1..];
    }
  }

  lemma {:induction false} AtMostTransitive(a: string, b: string, c: string)
    requires AtMost(a, b) && AtMost(b, c)
    ensures AtMost(a, c)
  {
    if a != "" && a[0] == b[0] && b[0] == c[0] {
      AtMostTransitive(a[1..], b[1..], c[1..]);
    }
  }

  /** A text comes before its extensions, and before texts with a larger character at the first difference. */
  lemma {:induction false} AtMostIff(a: string, b: string)
    ensures AtMost(a, b) <==>
            exists i: nat :: i <= |a| && i <= |b| && a[..i] == b[..i] && (i == |a| || (i < |b| && a[i] < b[i]))
    decreases |a|
  {
    if a == "" {
      assert a[..0] == b[..0];
    } else if b != "" && a[0] == b[0] {
      AtMostIff(a[1..], b[1..]);
      forall i: nat | 1 <= i <= |a| && i <= |b|
        ensures a[..i] == b[..i] <==> a[1..][..i - 1] == b[1..][..i - 1]
      {
        assert a[..i] == [a[0]] + a[1..][..i - 1] && b[..i] == [b[0]] + b[1..][..i - 1];
      }
      if i: nat :| i < |a| && i < |b| && a[1..][..i] == b[1..][..i] &&
                   (i == |a[1..]| || (i < |b[1..]| && a[1..][i] < b[1..][i])) {
        assert a[..i + 1] == b[..i + 1];
      }
    } else if b != "" {
      assert a[..0] == b[..0];
      forall i: nat | 1 <= i <= |a| && i <= |b| ensures a[..i] != b[..i] {
        assert a[..i][0] != b[..i][0];
      }
    }
  }

  ghost predicate IsSorted(s: seq<string>) {
    forall i, j :: 0 <= i < j < |s| ==> AtMost(s[i], s[j])
  }

  ghost predicate IsStrictlySorted(s: seq<string>) {
    forall i, j :: 0 <= i < j < |s| ==> AtMost(s[i], s[j]) && s[i] != s[j]
  }

  ghost function Elements<T>(s: seq<T>): set<T> {
    set x | x in s
  }

  function Insert(x: string, s: seq<string>): (r: seq<string>)
    ensures multiset(r) == multiset{x} + multiset(s)
  {
    if s == [] then [x]
    else if AtMost(x, s[0]) then [x] + s
    else
      assert s == [s[0]] + s[1..];
      [s[0]] + Insert(x, s[1..])
  }

  lemma MultisetMembers<T>(r: seq<T>, m: multiset<T>)
    requires multiset(r) == m
    ensures forall y :: y in r <==> y in m
  {
    forall y ensures y in r <==> y in m {
      assert y in r <==> y in multiset(r);
    }
  }

  lemma InsertMembers(x: string, s: seq<string>)
    ensures forall y :: y in Insert(x, s) <==> y == x || y in s
  {
    MultisetMembers(Insert(x, s), multiset{x} + multiset(s));
    MultisetMembers(s, multiset(s));
  }

  ghost predicate AtMostAll(x: string, s: seq<string>) {
    forall y :: y in s ==> AtMost(x, y)
  }

  lemma ConsKeepsSorted(x: string, s: seq<string>)
    requires IsSorted(s) && AtMostAll(x, s)
    ensures IsSorted([x] + s)
    ensures IsStrictlySorted(s) && x !in s ==> IsStrictlySorted([x] + s)
  {
    var r := [x] + s;
    forall i, j | 0 <= i < j < |r| ensures AtMost(r[i], r[j]) {
      assert r[j] == s[j - 1] && r[j] in s;
      if i > 0 { assert r[i] == s[i - 1]; }
    }
  }

  lemma HeadAtMostAll(s: seq<string>)
    requires IsSorted(s) && s != []
    ensures AtMostAll(s[0], s)
  {
    AtMostTotal(s[0], s[0]);
  }

  /** Insertion keeps a list sorted, and free of repeats when x is new. */
  lemma {:induction false} InsertKeepsSorted(x: string, s: seq<string>)
    requires IsSorted(s)
    ensures IsSorted(Insert(x, s))
    ensures IsStrictlySorted(s) && x !in s ==> IsStrictlySorted(Insert(x, s))
  {
    if s == [] {
    } else if AtMost(x, s[0]) {
      HeadAtMostAll(s);
      forall y | y in s ensures AtMost(x, y) { AtMostTransitive(x, s[0], y); }
      ConsKeepsSorted(x, s);
    } else {
      AtMostTotal(x, s[0]);
      HeadAtMostAll(s);
      var tail := s[1..];
      assert IsSorted(tail) && (IsStrictlySorted(s) ==> IsStrictlySorted(tail) && s[0] !in tail);
      InsertKeepsSorted(x, tail);
      InsertMembers(x, tail);
      ConsKeepsSorted(s[0], Insert(x, tail));
    }
  }

  /** sort.Strings on a copy. */
  function Sort(s: seq<string>): (r: seq<string>)
    ensures IsSorted(r) && multiset(r) == multiset(s)
    ensures forall x :: x in r <==> x in s
  {
    if s == [] then []
    else
      assert s == [s[0]] + s[1..];
      InsertKeepsSorted(s[0], Sort(s[1..]));
      InsertMembers(s[0], Sort(s[1..]));
      Insert(s[0], Sort(s[1..]))
  }

  lemma {:induction false} SortOfDistinct(s: seq<string>)
    requires forall j, k :: 0 <= j < k < |s| ==> s[j] != s[k]
    ensures IsStrictlySorted(Sort(s))
  {
    if s != [] {
      SortOfDistinct(s[1..]);
      InsertKeepsSorted(s[0], Sort(s[1..]));
    }
  }

  /** Two strictly sorted lists of the same strings are the same list. */
  lemma {:induction false} StrictlySortedUnique(a: seq<string>, b: seq<string>)
    requires IsStrictlySorted(a) && IsStrictlySorted(b)
    requires Elements(a) == Elements(b)
    ensures a == b
  {
    if a == [] {
      assert forall i :: 0 <= i < |b| ==> b[i] in Elements(b);
    } else {
      assert a[0] in Elements(b) && b != [];
      assert b[0] in Elements(a);
      AtMostAntisymmetric(a[0], b[0]) by {
        assert exists i :: 0 <= i < |b| && b[i] == a[0];
        assert exists i :: 0 <= i < |a| && a[i] == b[0];
        AtMostTotal(a[0], a[0]);
      }
      assert a == [a[0]] + a[1..] && b == [b[0]] + b[1..];
      assert Elements(a[1..]) == Elements(a) - {a[0]};
      assert Elements(b[1..]) == Elements(b) - {b[0]};
      StrictlySortedUnique(a[1..], b[1..]);
    }
  }

  /** The strings of a set, in increasing order. */
  ghost function SortedList(s: set<string>): (r: seq<string>)
    ensures IsStrictlySorted(r)
    ensures forall x :: x in r <==> x in s
  {
    if s == {} then []
    else
      var x :| x in s;
      var rest := SortedList(s - {x});
      InsertKeepsSorted(x, rest);
      InsertMembers(x, rest);
      Insert(x, rest)
  }

  /** strings.Join. */
  function Join(parts: seq<string>, sep: string): string {
    if parts == [] then ""
    else if |parts| == 1 then parts[0]
    else parts[0] + sep + Join(parts[1..], sep)
  }

  /** len: the bytes of the UTF-8 form. */
  function ByteLength(s: string): nat {
    if s == "" then 0
    else
      var c := s[0] as int;
      (if c < 0x80 then 1 else if c < 0x800 then 2 else if c < 0x1_0000 then 3 else 4) + ByteLength(s[1..])
  }

  lemma {:induction false} ByteLengthExact(a: string, c: char, b: string)
    ensures ByteLength(a + [c] + b) == ByteLength(a) + ByteLength([c]) + ByteLength(b)
    ensures ByteLength("") == 0
    ensures ByteLength([c]) ==
            if c as int <= 0x7f then 1 else if c as int <= 0x7ff then 2 else if c as int <= 0xffff then 3 else 4
    decreases |a|
  {
    assert [c][1..] == "";
    if a == "" {
      assert a + [c] + b == [c] + b && ([c] + b)[1..] == b;
    } else {
      assert (a + [c] + b)[1..] == a[1..] + [c] + b;
      ByteLengthExact(a[1..], c, b);
    }
  }

  /** strings.Contains. */
  predicate Contains(s: string, sub: string) {
    sub <= s || (s != "" && Contains(s[1..], sub))
  }

  /** Somewhere in the text stands the other one. */
  lemma {:induction false} ContainsIff(s: string, sub: string)
    ensures Contains(s, sub) <==> exists i: nat :: i <= |s| && sub <= s[i..]
    decreases |s|
  {
    assert s[0..] == s;
    if s != "" {
      ContainsIff(s[1..], sub);
      forall i: nat | 1 <= i <= |s| ensures s[i..] == s[1..][i - 1..] {}
      forall i: nat | i < |s| ensures s[1..][i..] == s[i + 1..] {}
    }
  }

  /** strings.Split at a one-character separator. */
  function Pieces(s: string, sep: char): (parts: seq<string>)
    ensures parts != []
  {
    if s == "" then [""]
    else
      var rest := Pieces(s[1..], sep);
      if s[0] == sep then [""] + rest else [[s[0]] + rest[0]] + rest[1..]
  }

  lemma JoinHead(part: string, rest: seq<string>, sep: string)
    ensures Join([part] + rest, sep) == if rest == [] then part else part + sep + Join(rest, sep)
  {
    assert ([part] + rest)[1..] == rest;
  }

  lemma JoinGrows(c: char, parts: seq<string>, sep: string)
    requires parts != []
    ensures Join([[c] + parts[0]] + parts[1..], sep) == [c] + Join(parts, sep)
    ensures Join([""] + parts, sep) == sep + Join(parts, sep)
  {
    hide Join;
    var first, rest := parts[0], parts[1..];
    assert parts == [first] + rest;
    JoinHead("", parts, sep);
    JoinHead(first, rest, sep);
    JoinHead([c] + first, rest, sep);
    if rest != [] {
      var joined := sep + Join(rest, sep);
      assert first + sep + Join(rest, sep) == first + joined;
      assert ([c] + first) + sep + Join(rest, sep) == ([c] + first) + joined;
      assert ([c] + first) + joined == [c] + (first + joined);
    }
  }

  lemma {:induction false} JoinPieces(s: string, sep: char)
    ensures Join(Pieces(s, sep), [sep]) == s
  {
    if s != "" {
      JoinPieces(s[1..], sep);
      JoinGrows(s[0], Pieces(s[1..], sep), [sep]);
      hide Join;
      assert s == [s[0]] + s[1..];
    }
  }

  lemma {:induction false} OnePiece(s: string, sep: char)
    requires sep !in s
    ensures Pieces(s, sep) == [s]
  {
    if s != "" {
      OnePiece(s[1..], sep);
      assert s == [s[0]] + s[1..];
    }
  }

  lemma {:induction false} PiecesAfterSep(part: string, rest: string, sep: char)
    requires sep !in part
    ensures Pieces(part + [sep] + rest, sep) == [part] + Pieces(rest, sep)
  {
    var s := part + [sep] + rest;
    if part == "" {
      assert s[1..] == rest;
    } else {
      PiecesAfterSep(part[1..], rest, sep);
      assert s[1..] == part[1..] + [sep] + rest;
      assert part == [part[0]] + part[1..];
    }
  }

  lemma {:induction false} PiecesOfJoin(parts: seq<string>, sep: char)
    requires parts != [] && forall part :: part in parts ==> sep !in part
    ensures Pieces(Join(parts, [sep]), sep) == parts
  {
    if |parts| == 1 {
      OnePiece(parts[0], sep);
    } else {
      PiecesOfJoin(parts[1..], sep);
      PiecesAfterSep(parts[0], Join(parts[1..], [sep]), sep);
      assert parts == [parts[0]] + parts[1..];
    }
  }

  lemma {:induction false} PiecesHaveNoSep(s: string, sep: char)
    ensures forall part :: part in Pieces(s, sep) ==> sep !in part
  {
    if s != "" { PiecesHaveNoSep(s[1..], sep); }
  }

  /** There is one piece more than separators. */
  lemma {:induction false} PieceCount(s: string, sep: char)
    ensures |Pieces(s, sep)| == multiset(s)[sep] + 1
  {
    if s != "" {
      PieceCount(s[1..], sep);
      assert s == [s[0]] + s[1..];
    }
  }
}
