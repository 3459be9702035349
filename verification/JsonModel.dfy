/**
 The laws asked of encoding/json are consistent: a small encoder that writes
 every character in unary satisfies all of them.
 */
module JsonModel {
  import Text
  import opened Lines
  import opened Provenance
  import opened Wrappers

  function Unary(n: nat): string {
    if n == 0 then "0" else "1" + Unary(n - 1)
  }

  function Quote(s: string): string {
    if s == "" then "e" else "c" + (Unary(s[0] as int) + Quote(s[1..]))
  }

  function Pairs(kvs: seq<(string, string)>): string {
    if kvs == [] then "}" else "p" + (Quote(kvs[0].0) + (Quote(kvs[0].1) + Pairs(kvs[1..])))
  }

  lemma {:induction false} UnaryUnique(n: nat, r: string, m: nat, q: string)
    requires Unary(n) + r == Unary(m) + q
    ensures n == m && r == q
  {
    var a, b := Unary(n) + r, Unary(m) + q;
    assert a[0] == b[0];
    if n > 0 && m > 0 {
      assert a[1..] == Unary(n - 1) + r && b[1..] == Unary(m - 1) + q;
      UnaryUnique(n - 1, r, m - 1, q);
    } else if n == 0 && m == 0 {
      assert a[1..] == r && b[1..] == q;
    }
  }

  lemma {:induction false} QuoteUnique(s: string, r: string, t: string, q: string)
    requires Quote(s) + r == Quote(t) + q
    ensures s == t && r == q
    decreases |s|
  {
    var a, b := Quote(s) + r, Quote(t) + q;
    assert a[0] == b[0];
    if s != "" && t != "" {
      assert a[1..] == Unary(s[0] as int) + (Quote(s[1..]) + r);
      assert b[1..] == Unary(t[0] as int) + (Quote(t[1..]) + q);
      UnaryUnique(s[0] as int, Quote(s[1..]) + r, t[0] as int, Quote(t[1..]) + q);
      QuoteUnique(s[1..], r, t[1..], q);
      assert s == [s[0]] + s[1..] && t == [t[0]] + t[1..];
    } else if s == "" && t == "" {
      assert a[1..] == r && b[1..] == q;
    }
  }

  lemma {:induction false} PairsUnique(a: seq<(string, string)>, b: seq<(string, string)>)
    requires Pairs(a) == Pairs(b)
    ensures a == b
    decreases |a|
  {
    assert Pairs(a)[0] == Pairs(b)[0];
    if a != [] && b != [] {
      var ra, rb := Quote(a[0].1) + Pairs(a[1..]), Quote(b[0].1) + Pairs(b[1..]);
      assert Pairs(a)[1..] == Quote(a[0].0) + ra && Pairs(b)[1..] == Quote(b[0].0) + rb;
      QuoteUnique(a[0].0, ra, b[0].0, rb);
      QuoteUnique(a[0].1, Pairs(a[1..]), b[0].1, Pairs(b[1..]));
      PairsUnique(a[1..], b[1..]);
      assert a == [a[0]] + a[1..] && b == [b[0]] + b[1..];
    }
  }

  // ------------------------------------------------------------------ objects

  ghost function PairsOf(m: Fields): seq<(string, string)> {
    var keys := Text.SortedList(m.Keys);
    seq(|keys|, i requires 0 <= i < |keys| => assert keys[i] in m.Keys; (keys[i], m[keys[i]]))
  }

  ghost function EncodeFields(m: Fields): string {
    "{" + Pairs(PairsOf(m))
  }

  lemma PairsOfHas(m: Fields, k: string, v: string)
    ensures (k, v) in PairsOf(m) <==> k in m && m[k] == v
  {
    var keys := Text.SortedList(m.Keys);
    if k in m && m[k] == v {
      assert k in keys;
      var i :| 0 <= i < |keys| && keys[i] == k;
      assert PairsOf(m)[i] == (k, v);
    }
  }

  lemma PairsOfUnique(m: Fields, n: Fields)
    requires PairsOf(m) == PairsOf(n)
    ensures m == n
  {
    hide PairsOf;
    forall k ensures k in m <==> k in n {
      if k in m { PairsOfHas(m, k, m[k]); PairsOfHas(n, k, m[k]); }
      if k in n { PairsOfHas(n, k, n[k]); PairsOfHas(m, k, n[k]); }
    }
    forall k | k in m ensures m[k] == n[k] {
      PairsOfHas(m, k, m[k]);
      PairsOfHas(n, k, m[k]);
    }
  }

  lemma EncodeUnique(m: Fields, n: Fields)
    requires EncodeFields(m) == EncodeFields(n)
    ensures m == n
  {
    hide Pairs, PairsOf;
    assert EncodeFields(m)[1..] == Pairs(PairsOf(m)) && EncodeFields(n)[1..] == Pairs(PairsOf(n));
    PairsUnique(PairsOf(m), PairsOf(n));
    PairsOfUnique(m, n);
  }

  /** Inked text: no space and no newline anywhere. */
  predicate NoSpace(s: string) {
    forall i :: 0 <= i < |s| ==> !IsSpace(s[i])
  }

  lemma {:induction false} UnaryNoSpace(n: nat)
    ensures NoSpace(Unary(n))
  {
    if n > 0 { UnaryNoSpace(n - 1); }
  }

  lemma {:induction false} QuoteNoSpace(s: string)
    ensures NoSpace(Quote(s))
    decreases |s|
  {
    if s != "" {
      UnaryNoSpace(s[0] as int);
      QuoteNoSpace(s[1..]);
    }
  }

  lemma {:induction false} PairsNoSpace(kvs: seq<(string, string)>)
    ensures NoSpace(Pairs(kvs))
    decreases |kvs|
  {
    if kvs != [] {
      QuoteNoSpace(kvs[0].0);
      QuoteNoSpace(kvs[0].1);
      PairsNoSpace(kvs[1..]);
    }
  }

  lemma EncodeNoSpace(m: Fields)
    ensures NoSpace(EncodeFields(m)) && EncodeFields(m) != "" && EncodeFields(m)[0] == '{'
    ensures TrimSpace(EncodeFields(m)) == EncodeFields(m)
  {
    PairsNoSpace(PairsOf(m));
  }

  // ----------------------------------------------------------------- trimming

  lemma {:induction false} TrimRightDropsCR(s: string)
    ensures TrimRight(DropCR(s)) == TrimRight(s)
  {
  }

  lemma {:induction false} TrimLeftThenCR(s: string)
    ensures TrimRight(TrimLeft(DropCR(s))) == TrimRight(TrimLeft(s))
    decreases |s|
  {
    if s != "" && IsSpace(s[0]) {
      if |s| == 1 {
        assert s[1..] == "";
      } else {
        assert DropCR(s)[1..] == DropCR(s[1..]);
        TrimLeftThenCR(s[1..]);
      }
    } else {
      TrimRightDropsCR(s);
    }
  }

  lemma {:induction false} TrimmedEnds(s: string)
    ensures TrimRight(s) != "" ==> s != "" && TrimRight(s)[0] == s[0] && !IsSpace(TrimRight(s)[|TrimRight(s)| - 1])
    ensures TrimRight(TrimRight(s)) == TrimRight(s)
  {
    if s != "" && IsSpace(s[|s| - 1]) {
      TrimmedEnds(s[..|s| - 1]);
    }
  }

  lemma {:induction false} TrimLeftEnds(s: string)
    ensures TrimLeft(s) != "" ==> !IsSpace(TrimLeft(s)[0])
    decreases |s|
  {
    if s != "" && IsSpace(s[0]) {
      TrimLeftEnds(s[1..]);
    }
  }

  lemma TrimTwice(s: string)
    ensures TrimSpace(TrimSpace(s)) == TrimSpace(s)
  {
    TrimLeftEnds(s);
    TrimmedEnds(TrimLeft(s));
  }

  // -------------------------------------------------------------------- model

  ghost function Parse(line: string): Doc {
    var t := TrimSpace(line);
    if m :| EncodeFields(m) == t then Object(m) else if t == "null" then Null else Bad
  }

  function WriteInfo(i: Info): string {
    Pairs([(i.source, i.remote), (i.peer, i.objectKey), (i.etag, i.syncedAt)])
  }

  ghost function ReadInfo(v: string): Option<Info> {
    if i :| WriteInfo(i) == v then Some(i) else None
  }

  ghost const CODEC := Json(Parse, m => Some(EncodeFields(m)), v => true, v => v, v => Some(v), WriteInfo, ReadInfo)

  lemma ModelParses()
    ensures ParsesJson(CODEC)
  {
    hide EncodeFields, TrimSpace;
    forall line ensures CODEC.parse(DropCR(line)) == CODEC.parse(line) { SameTrim(line); }
    forall line ensures CODEC.parse(TrimSpace(line)) == CODEC.parse(line) { TrimTwice(line); }
    forall line | CODEC.parse(line) != Bad ensures !IsBlank(line) {
      if m :| EncodeFields(m) == TrimSpace(line) { EncodeNoSpace(m); }
    }
  }

  lemma SameTrim(line: string)
    ensures TrimSpace(DropCR(line)) == TrimSpace(line)
  {
    TrimLeftThenCR(line);
  }

  lemma ModelEncodes()
    ensures EncodesJson(CODEC)
  {
    hide EncodeFields, TrimSpace;
    forall m ensures CODEC.parse(EncodeFields(m)) == Object(m) && '\n' !in EncodeFields(m) && Compacted(CODEC, m) == m {
      EncodeNoSpace(m);
      var n :| EncodeFields(n) == EncodeFields(m) && CODEC.parse(EncodeFields(m)) == Object(n);
      EncodeUnique(n, m);
    }
  }

  lemma ModelStamps()
    ensures StampsJson(CODEC)
  {
    forall i ensures CODEC.readInfo(CODEC.writeInfo(i)) == Some(i) {
      var k :| WriteInfo(k) == WriteInfo(i) && CODEC.readInfo(CODEC.writeInfo(i)) == Some(k);
      var a, b := [(k.source, k.remote), (k.peer, k.objectKey), (k.etag, k.syncedAt)],
        [(i.source, i.remote), (i.peer, i.objectKey), (i.etag, i.syncedAt)];
      PairsUnique(a, b);
      assert a[0] == b[0] && a[1] == b[1] && a[2] == b[2];
    }
  }

  /** Some codec satisfies every law the sync theorems assume. */
  lemma JsonLawsAreConsistent()
    ensures exists j :: IsJson(j)
  {
    ModelParses();
    ModelEncodes();
    ModelStamps();
    assert IsJson(CODEC);
  }
}
