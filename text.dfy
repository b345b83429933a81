/**
 * Text handling shared by the two JSON-like dialects: searching a byte string
 * for a marker (`std::search`, `std::string::find`) and the parsers'
 * `replaceAll` helper, which repairs the firmware's pseudo-JSON.
 */
module Text {
  import opened Bytes
  import opened Wrappers

  /** `pat` occurs in `s` starting at index `i`. */
  predicate OccursAt(s: seq<byte>, pat: seq<byte>, i: nat)
  {
    i + |pat| <= |s| && s[i..i + |pat|] == pat
  }

  /** The first position at or after `from` where `pat` occurs, if any. */
  function Find(s: seq<byte>, pat: seq<byte>, from: nat): (r: Option<nat>)
    decreases |s| - from
    ensures r.Some? ==> from <= r.value && OccursAt(s, pat, r.value)
    ensures r.Some? ==> forall j :: from <= j < r.value ==> !OccursAt(s, pat, j)
    ensures r.None? ==> forall j :: from <= j ==> !OccursAt(s, pat, j)
  {
    if from + |pat| > |s| then None
    else if s[from..from + |pat|] == pat then Some(from)
    else Find(s, pat, from + 1)
  }

  /**
   * The text `replaceAll` produces for a non-empty `from`: occurrences are
   * replaced left to right without overlapping, and scanning resumes after the
   * replaced source text, so the inserted text is never scanned again.
   */
  function Replacing(s: seq<byte>, from: seq<byte>, to: seq<byte>): seq<byte>
    requires from != []
    decreases |s|
  {
    if |s| < |from| then s
    else if s[..|from|] == from then to + Replacing(s[|from|..], from, to)
    else [s[0]] + Replacing(s[1..], from, to)
  }

  /** `replaceAll(str, from, to)` as a value: an empty `from` leaves the text alone. */
  function ReplaceAllOf(s: seq<byte>, from: seq<byte>, to: seq<byte>): seq<byte>
  {
    if from == [] then s else Replacing(s, from, to)
  }

  /** Successive `replaceAll` calls: each (from, to) rule is applied to the result of the ones before it. */
  function ReplaceEach(s: seq<byte>, rules: seq<(seq<byte>, seq<byte>)>): seq<byte>
    decreases |rules|
  {
    if rules == [] then s else ReplaceEach(ReplaceAllOf(s, rules[0].0, rules[0].1), rules[1..])
  }

  /** Text before the first occurrence is copied unchanged. */
  lemma {:induction false} ReplacingSkips(t: seq<byte>, from: seq<byte>, to: seq<byte>, k: nat)
    requires from != [] && k <= |t|
    requires forall j :: 0 <= j < k ==> !OccursAt(t, from, j)
    ensures Replacing(t, from, to) == t[..k] + Replacing(t[k..], from, to)
  {
    hide Replacing;
    if k == 0 {
      assert t[..0] + t[0..] == t;
    } else if |t| < |from| {
      ReplacingShort(t[k..], from, to);
      ReplacingShort(t, from, to);
      assert t[..k] + t[k..] == t;
    } else {
      assert !OccursAt(t, from, 0);
      assert t[..|from|] != from;
      ReplacingCopies(t, from, to);
      var t' := t[1..];
      OccursShift(t, from, k);
      ReplacingSkips(t', from, to, k - 1);
      assert t'[k - 1..] == t[k..];
      assert [t[0]] + t'[..k - 1] == t[..k];
    }
  }

  lemma OccursShift(t: seq<byte>, from: seq<byte>, k: nat)
    requires 0 < k <= |t|
    requires forall j :: 0 <= j < k ==> !OccursAt(t, from, j)
    ensures forall j :: 0 <= j < k - 1 ==> !OccursAt(t[1..], from, j)
  {
    forall j | 0 <= j < k - 1 ensures !OccursAt(t[1..], from, j) {
      OccursInSuffix(t, from, 1, j);
    }
  }

  /** An occurrence in a suffix is an occurrence in the whole text, shifted. */
  lemma OccursInSuffix(t: seq<byte>, from: seq<byte>, d: nat, j: nat)
    requires d <= |t|
    ensures OccursAt(t[d..], from, j) == OccursAt(t, from, j + d)
  {
    if j + |from| <= |t| - d {
      assert t[d..][j..j + |from|] == t[j + d..j + d + |from|];
    }
  }

  /** An occurrence in a prefix is an occurrence in the whole text. */
  lemma OccursInPrefix(s: seq<byte>, pat: seq<byte>, k: nat, j: nat)
    requires k <= |s|
    ensures OccursAt(s[..k], pat, j) ==> OccursAt(s, pat, j)
  {
    if j + |pat| <= k {
      assert s[..k][j..j + |pat|] == s[j..j + |pat|];
    }
  }

  /** Appending text keeps every occurrence, and adds none that ends inside the original. */
  lemma OccursInExtension(s: seq<byte>, u: seq<byte>, pat: seq<byte>, j: nat)
    ensures OccursAt(s, pat, j) ==> OccursAt(s + u, pat, j)
    ensures j + |pat| <= |s| ==> (OccursAt(s + u, pat, j) <==> OccursAt(s, pat, j))
  {
    if j + |pat| <= |s| {
      assert (s + u)[j..j + |pat|] == s[j..j + |pat|];
    }
  }

  /** A one-byte pattern occurs exactly where that byte is. */
  lemma OccursByte(s: seq<byte>, x: byte, j: nat)
    ensures OccursAt(s, [x], j) <==> j < |s| && s[j] == x
  {
    if j < |s| {
      assert s[j..j + 1] == [s[j]];
    }
  }

  /** An occurrence with none before it, from the start of the search, is the one `Find` returns. */
  lemma FindFirst(s: seq<byte>, pat: seq<byte>, from: nat, i: nat)
    requires from <= i && OccursAt(s, pat, i)
    requires forall j :: from <= j < i ==> !OccursAt(s, pat, j)
    ensures Find(s, pat, from) == Some(i)
  {
  }

  /** A text with no occurrence from `from` on has none in any prefix, from any later position. */
  lemma FindNoneInPrefix(s: seq<byte>, pat: seq<byte>, from: nat, later: nat, k: nat)
    requires k <= |s| && from <= later && Find(s, pat, from).None?
    ensures Find(s[..k], pat, later).None?
  {
    forall j | later <= j ensures !OccursAt(s[..k], pat, j) {
      OccursInPrefix(s, pat, k, j);
    }
  }

  /** What is found in a text is found at the same place once more text is appended. */
  lemma FindInExtension(s: seq<byte>, u: seq<byte>, pat: seq<byte>, from: nat)
    requires Find(s, pat, from).Some?
    ensures Find(s + u, pat, from) == Find(s, pat, from)
  {
    var i := Find(s, pat, from).value;
    forall j | from <= j < i ensures !OccursAt(s + u, pat, j) {
      OccursInExtension(s, u, pat, j);
    }
    OccursInExtension(s, u, pat, i);
    FindFirst(s + u, pat, from, i);
  }

  lemma ReplacingCopies(t: seq<byte>, from: seq<byte>, to: seq<byte>)
    requires from != [] && |t| >= |from| && t[..|from|] != from
    ensures Replacing(t, from, to) == [t[0]] + Replacing(t[1..], from, to)
  {
  }

  lemma ReplacingReplaces(t: seq<byte>, from: seq<byte>, to: seq<byte>)
    requires from != [] && |t| >= |from| && t[..|from|] == from
    ensures Replacing(t, from, to) == to + Replacing(t[|from|..], from, to)
  {
  }

  lemma ReplacingShort(t: seq<byte>, from: seq<byte>, to: seq<byte>)
    requires from != [] && |t| < |from|
    ensures Replacing(t, from, to) == t
  {
  }

  /**
   * When the pattern and its replacement end with the same byte, a text that
   * ends with that byte still ends with it after the replacement.
   */
  lemma {:induction false} ReplacingKeepsLast(s: seq<byte>, from: seq<byte>, to: seq<byte>, x: byte)
    requires from != [] && to != [] && from[|from| - 1] == x && to[|to| - 1] == x
    requires s != [] && s[|s| - 1] == x
    ensures var r := Replacing(s, from, to); r != [] && r[|r| - 1] == x
    decreases |s|
  {
    hide Replacing;
    if |s| < |from| {
      ReplacingShort(s, from, to);
    } else if s[..|from|] == from {
      ReplacingReplaces(s, from, to);
      if |s| > |from| {
        ReplacingKeepsLast(s[|from|..], from, to, x);
      } else {
        ReplacingShort(s[|from|..], from, to);
      }
    } else {
      ReplacingCopies(s, from, to);
      if |s| > 1 {
        ReplacingKeepsLast(s[1..], from, to, x);
      } else {
        ReplacingShort(s[1..], from, to);
      }
    }
  }

  /** Text in which `from` does not occur is left unchanged. */
  lemma {:induction false} ReplacingNothing(t: seq<byte>, from: seq<byte>, to: seq<byte>)
    requires from != []
    requires forall j :: 0 <= j ==> !OccursAt(t, from, j)
    ensures Replacing(t, from, to) == t
  {
    if |t| >= |from| {
      var k := |t| - |from| + 1;
      ReplacingSkips(t, from, to, k);
      ReplacingShort(t[k..], from, to);
      assert t[..k] + t[k..] == t;
    }
  }

  /** If `from` does not occur at all, `replaceAll` is the identity. */
  lemma ReplaceAllWithoutOccurrence(s: seq<byte>, from: seq<byte>, to: seq<byte>)
    requires Find(s, from, 0).None?
    ensures ReplaceAllOf(s, from, to) == s
  {
    if from != [] {
      ReplacingNothing(s, from, to);
    }
  }

  /** One splice of the `replaceAll` loop keeps the text it will finally produce. */
  lemma SpliceKeepsResult(r: seq<byte>, from: seq<byte>, to: seq<byte>, startPos: nat, k: nat)
    requires from != [] && startPos <= k
    requires OccursAt(r, from, k)
    requires forall j :: startPos <= j < k ==> !OccursAt(r, from, j)
    ensures var r' := r[..k] + to + r[k + |from|..];
      k + |to| <= |r'| &&
      r'[..k + |to|] + Replacing(r'[k + |to|..], from, to) == r[..startPos] + Replacing(r[startPos..], from, to)
  {
    hide Replacing;
    var t := r[startPos..];
    forall j | 0 <= j < k - startPos ensures !OccursAt(t, from, j) {
      OccursInSuffix(r, from, startPos, j);
    }
    ReplacingSkips(t, from, to, k - startPos);
    assert t[k - startPos..] == r[k..];
    assert r[k..][..|from|] == from;
    assert r[k..][|from|..] == r[k + |from|..];
    ReplacingReplaces(r[k..], from, to);
    var r' := r[..k] + to + r[k + |from|..];
    assert r'[..k + |to|] == r[..k] + to;
    assert r'[k + |to|..] == r[k + |from|..];
    assert r[..startPos] + t[..k - startPos] == r[..k];
    var tail := Replacing(r[k + |from|..], from, to);
    calc {
      r[..startPos] + Replacing(t, from, to);
      r[..startPos] + (t[..k - startPos] + (to + tail));
      (r[..startPos] + t[..k - startPos]) + to + tail;
      r'[..k + |to|] + tail;
    }
  }

  /** Once no occurrence is left after `startPos`, the rest is copied as it is. */
  lemma NothingLeftToReplace(r: seq<byte>, from: seq<byte>, to: seq<byte>, startPos: nat)
    requires from != [] && startPos <= |r|
    requires forall j :: startPos <= j ==> !OccursAt(r, from, j)
    ensures r[..startPos] + Replacing(r[startPos..], from, to) == r
  {
    forall j | 0 <= j ensures !OccursAt(r[startPos..], from, j) {
      OccursInSuffix(r, from, startPos, j);
    }
    ReplacingNothing(r[startPos..], from, to);
    assert r[..startPos] + r[startPos..] == r;
  }

  /**
   * `replaceAll`, written as the source's in-place loop: find the next
   * occurrence from `startPos`, splice in the replacement, and continue after
   * the inserted text.
   */
  method ReplaceAll(str: seq<byte>, from: seq<byte>, to: seq<byte>) returns (r: seq<byte>)
    ensures r == ReplaceAllOf(str, from, to)
  {
    r := str;
    if from == [] {
      return;
    }
    var startPos: nat := 0;
    var found := Find(r, from, startPos);
    while found.Some?
      invariant startPos <= |r|
      invariant found == Find(r, from, startPos)
      invariant r[..startPos] + Replacing(r[startPos..], from, to) == Replacing(str, from, to)
      decreases |r| - startPos
    {
      var k := found.value;
      SpliceKeepsResult(r, from, to, startPos, k);
      r := r[..k] + to + r[k + |from|..];
      startPos := k + |to|;
      found := Find(r, from, startPos);
    }
    NothingLeftToReplace(r, from, to, startPos);
  }

  /** Occurrences are taken left to right without overlap: "aaa" with "aa" -> "b" gives "ba". */
  lemma ReplaceAllLeftToRight()
    ensures ReplaceAllOf(Ascii("aaa"), Ascii("aa"), Ascii("b")) == Ascii("ba")
  {
    assert Ascii("aaa")[..2] == Ascii("aa");
    assert Ascii("aaa")[2..] == Ascii("a");
  }

  /** Inserted text is not scanned again: "aa" with "a" -> "aa" gives "aaaa" (and terminates). */
  lemma ReplaceAllDoesNotRescan()
    ensures ReplaceAllOf(Ascii("aa"), Ascii("a"), Ascii("aa")) == Ascii("aaaa")
  {
    assert Ascii("aa")[..1] == Ascii("a");
    assert Ascii("aa")[1..] == Ascii("a");
    assert Ascii("a")[..1] == Ascii("a");
    assert Ascii("a")[1..] == [];
  }
}
