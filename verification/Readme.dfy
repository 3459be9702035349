/** The triage block of a workspace README: appended after a separator, extracted after the last one. */
module Readme {
  import opened Lines

  const SEPARATOR := "\n---\n"

  /** What appending does to the file; a missing file counts as empty. */
  function AppendTriage(readme: string, raw: string): string {
    readme + ("\n---\n\n" + raw + "\n")
  }

  predicate OccursAt(s: string, i: nat) {
    i <= |s| && SEPARATOR <= s[i..]
  }

  predicate HasSeparator(s: string) {
    exists i: nat :: i <= |s| && OccursAt(s, i)
  }

  /** strings.LastIndex: the last occurrence that starts before `end`. */
  function LastIndex(s: string, end: nat): (r: int)
    requires end <= |s|
    ensures r >= 0 ==> r < end && OccursAt(s, r)
    ensures forall i: nat :: r < i < end ==> !OccursAt(s, i)
  {
    if end == 0 then -1 else if OccursAt(s, end - 1) then end - 1 else LastIndex(s, end - 1)
  }

  function ExtractTriageBlock(readme: string): string {
    var idx := LastIndex(readme, |readme|);
    if idx < 0 then "" else TrimSpace(readme[idx + |SEPARATOR|..])
  }

  /** How many characters are not space; trimming removes none of them. */
  function Ink(s: string): nat {
    if s == "" then 0 else (if IsSpace(s[0]) then 0 else 1) + Ink(s[1..])
  }

  lemma {:induction false} InkConcat(a: string, b: string)
    ensures Ink(a + b) == Ink(a) + Ink(b)
  {
    if a == "" {
      assert a + b == b;
    } else {
      assert (a + b)[1..] == a[1..] + b;
      InkConcat(a[1..], b);
    }
  }

  lemma {:induction false} TrimLeftKeepsInk(s: string)
    ensures Ink(TrimLeft(s)) == Ink(s)
  {
    if s != "" && IsSpace(s[0]) {
      TrimLeftKeepsInk(s[1..]);
    }
  }

  lemma {:induction false} TrimRightKeepsInk(s: string)
    ensures Ink(TrimRight(s)) == Ink(s)
  {
    if s != "" && IsSpace(s[|s| - 1]) {
      var front, last := s[..|s| - 1], s[|s| - 1..];
      TrimRightKeepsInk(front);
      assert s == front + last;
      InkConcat(front, last);
      assert last[1..] == "";
    }
  }

  lemma TrimKeepsInk(s: string)
    ensures Ink(TrimSpace(s)) == Ink(s)
  {
    TrimLeftKeepsInk(s);
    TrimRightKeepsInk(TrimLeft(s));
  }

  /** Space around a text does not survive trimming. */
  lemma TrimWrapped(raw: string)
    ensures TrimSpace("\n" + raw + "\n") == TrimSpace(raw)
  {
    assert ("\n" + raw + "\n")[1..] == raw + "\n";
    TrimLeftSuffix(raw);
    if TrimLeft(raw) != "" {
      TrimRightSuffix(TrimLeft(raw));
    } else {
      assert "\n"[1..] == "";
    }
  }

  lemma {:induction false} TrimLeftSuffix(raw: string)
    ensures TrimLeft(raw + "\n") == if TrimLeft(raw) == "" then "" else TrimLeft(raw) + "\n"
  {
    if raw == "" {
      assert (raw + "\n")[1..] == "";
    } else {
      assert (raw + "\n")[1..] == raw[1..] + "\n";
      if IsSpace(raw[0]) {
        TrimLeftSuffix(raw[1..]);
      }
    }
  }

  lemma TrimRightSuffix(s: string)
    ensures TrimRight(s + "\n") == TrimRight(s)
  {
    assert (s + "\n")[..|s|] == s;
  }

  /** In the written file, separators are the appended one, those of the prior text, and those of the wrapped block. */
  lemma SeparatorsAfterAppend(readme: string, raw: string, i: nat)
    requires i > |readme| && i <= |AppendTriage(readme, raw)|
    ensures OccursAt(AppendTriage(readme, raw), i) <==>
            i >= |readme| + 5 && OccursAt("\n" + raw + "\n", i - |readme| - 5)
  {
    var s, tail := AppendTriage(readme, raw), "\n" + raw + "\n";
    assert s == readme + SEPARATOR + tail;
    if i >= |readme| + 5 {
      assert s[i..] == tail[i - |readme| - 5..];
    } else if i == |readme| + 4 {
      assert s[i] == '\n' && s[i + 1] == '\n';
    } else {
      assert s[i] == '-';
    }
  }

  /**
   Appending a block and extracting the last one gives the block back,
   trimmed, whatever the README held before, exactly when the block, wrapped
   in newlines, contains no separator of its own.
   */
  lemma TriageRoundTripIff(readme: string, raw: string)
    ensures ExtractTriageBlock(AppendTriage(readme, raw)) == TrimSpace(raw) <==> !HasSeparator("\n" + raw + "\n")
  {
    var s, tail := AppendTriage(readme, raw), "\n" + raw + "\n";
    var n := |readme|;
    assert s == readme + SEPARATOR + tail;
    assert OccursAt(s, n) by { assert s[n..] == SEPARATOR + tail; }
    var idx := LastIndex(s, |s|);
    assert idx >= n;
    if idx == n {
      assert s[idx + 5..] == tail;
      TrimWrapped(raw);
      forall i: nat | i <= |tail| ensures !OccursAt(tail, i) {
        if i < |tail| { SeparatorsAfterAppend(readme, raw, n + 5 + i); }
      }
    } else {
      SeparatorsAfterAppend(readme, raw, idx);
      var i := idx - n - 5;
      assert HasSeparator(tail);
      LosesInk(tail, raw, i);
      assert s[idx + 5..] == tail[i + 5..];
    }
  }

  /** What follows an inner separator has less ink than the whole block. */
  lemma LosesInk(tail: string, raw: string, i: nat)
    requires tail == "\n" + raw + "\n" && OccursAt(tail, i)
    ensures TrimSpace(tail[i + 5..]) != TrimSpace(raw)
  {
    TrimWrapped(raw);
    TrimKeepsInk(tail);
    TrimKeepsInk(tail[i + 5..]);
    assert tail == tail[..i] + (SEPARATOR + tail[i + 5..]) by { assert tail[i..] == SEPARATOR + tail[i + 5..]; }
    InkConcat(tail[..i], SEPARATOR + tail[i + 5..]);
    InkConcat(SEPARATOR, tail[i + 5..]);
    assert SEPARATOR[1..] == "---\n" && Ink(SEPARATOR) >= 1;
  }
}
