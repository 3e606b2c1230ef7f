/**
 * Removal of inline caption tags such as `<00:00:01.500>` and `<c>`:
 * the substitution `re.sub(r'<[^>]+>', '', line)` applied to each
 * surviving caption line (app.py:54).
 */
module Tags {
  import opened Seqs

  /** The least index `k >= from` with `s[k] == '>'`, or `|s|` when there is none. */
  function NextClose(s: string, from: nat): (k: nat)
    requires from <= |s|
    ensures from <= k <= |s|
    ensures k < |s| ==> s[k] == '>'
    ensures forall m :: from <= m < k ==> s[m] != '>'
    decreases |s| - from
  {
    if from == |s| || s[from] == '>' then from else NextClose(s, from + 1)
  }

  /**
   * The pattern `<[^>]+>` matches at index `i` of `t`: a `<`, then at least
   * one character other than `>`, then a `>` somewhere further on.
   */
  predicate TagAt(t: string, i: int) {
    0 <= i && i + 1 < |t| && t[i] == '<' && t[i + 1] != '>' && '>' in t[i + 2..]
  }

  /** No match of `<[^>]+>` starts anywhere in `t`. */
  predicate NoTags(t: string) {
    forall i | 0 <= i < |t| :: !TagAt(t, i)
  }

  /**
   * The left-to-right substitution: at a `<` whose next `>` lies more than one
   * character further on, drop everything up to and including that `>`;
   * otherwise keep the character and move one step on.
   */
  function StripTags(s: string): string
    decreases |s|
  {
    if s == [] then []
    else
      var j := if s[0] == '<' then NextClose(s, 1) else 0;
      if s[0] == '<' && 1 < j < |s| then StripTags(s[j + 1..])
      else [s[0]] + StripTags(s[1..])
  }

  /** Any index that is the first `>` at or after `from` (or `|s|`, with none) is `NextClose(s, from)`. */
  lemma NextCloseUnique(s: string, from: nat, j: nat)
    requires from <= j <= |s|
    requires j < |s| ==> s[j] == '>'
    requires forall m :: from <= m < j ==> s[m] != '>'
    ensures j == NextClose(s, from)
  {
  }

  /** The substitution applied to the text from index `i` on, one step unfolded. */
  lemma StripTagsAt(s: string, i: nat)
    requires i < |s|
    ensures var j := NextClose(s, i + 1);
      if s[i] == '<' && i + 1 < j < |s| then StripTags(s[i..]) == StripTags(s[j + 1..])
      else StripTags(s[i..]) == [s[i]] + StripTags(s[i + 1..])
  {
    var rest := s[i..];
    var j := NextClose(s, i + 1);
    if s[i] == '<' {
      NextCloseUnique(rest, 1, j - i);
      if j < |s| {
        assert rest[j - i + 1..] == s[j + 1..];
      }
    }
    assert rest[1..] == s[i + 1..];
  }

  /** The search for the `>` that closes a tag opened just before `from`. */
  method FindClose(line: string, from: nat) returns (j: nat)
    requires from <= |line|
    ensures j == NextClose(line, from)
  {
    j := from;
    while j < |line| && line[j] != '>'
      invariant from <= j <= |line|
      invariant forall m :: from <= m < j ==> line[m] != '>'
    {
      j := j + 1;
    }
    NextCloseUnique(line, from, j);
  }

  /** The scan that performs the substitution on one line, one character or one tag at a time. */
  method RemoveTags(line: string) returns (out: string)
    ensures out == StripTags(line)
  {
    out := [];
    var i := 0;
    while i < |line|
      invariant 0 <= i <= |line|
      invariant out + StripTags(line[i..]) == StripTags(line)
    {
      StripTagsAt(line, i);
      var j := i;
      if line[i] == '<' {
        j := FindClose(line, i + 1);
      }
      if line[i] == '<' && i + 1 < j < |line| {
        i := j + 1;
      } else {
        ghost var tail := StripTags(line[i + 1..]);
        assert StripTags(line[i..]) == [line[i]] + tail;
        AppendAssoc(out, [line[i]], tail);
        out := out + [line[i]];
        i := i + 1;
      }
    }
    assert line[|line|..] == [];
  }

  /** The substitution introduces no new character: a character missing from the input is missing from the output. */
  lemma {:induction false} StripTagsAbsent(s: string, c: char)
    requires c !in s
    ensures c !in StripTags(s)
    decreases |s|
  {
    if s != [] {
      var j := if s[0] == '<' then NextClose(s, 1) else 0;
      if s[0] == '<' && 1 < j < |s| {
        assert c !in s[j + 1..];
        StripTagsAbsent(s[j + 1..], c);
      } else {
        assert c !in s[1..];
        StripTagsAbsent(s[1..], c);
      }
    }
  }

  /** The substitution only deletes: the result is the line with some characters removed, in their order. */
  lemma {:induction false} StripTagsDeletes(s: string)
    ensures IsSubsequence(StripTags(s), s)
    decreases |s|
  {
    if s != [] {
      var j := if s[0] == '<' then NextClose(s, 1) else 0;
      if s[0] == '<' && 1 < j < |s| {
        StripTagsDeletes(s[j + 1..]);
        SubsequenceOfSuffix(StripTags(s[j + 1..]), s, j + 1);
      } else {
        var r := StripTags(s);
        StripTagsDeletes(s[1..]);
        assert r == [s[0]] + StripTags(s[1..]);
        assert r[0] == s[0] && r[1..] == StripTags(s[1..]);
      }
    }
  }

  /** Text before the first `<` is copied through unchanged. */
  lemma {:induction false} StripTagsPlain(a: string, b: string)
    requires '<' !in a
    ensures StripTags(a + b) == a + StripTags(b)
    decreases |a|
  {
    if a != [] {
      assert (a + b)[1..] == a[1..] + b;
      StripTagsPlain(a[1..], b);
      assert [a[0]] + a[1..] == a;
    } else {
      assert a + b == b;
    }
  }

  /** `t` is exactly one match of the pattern: `<`, one or more characters other than `>`, `>`. */
  predicate IsTag(t: string) {
    |t| >= 3 && t[0] == '<' && t[|t| - 1] == '>' && forall k :: 0 < k < |t| - 1 ==> t[k] != '>'
  }

  /** A tag at the front is deleted as a whole. */
  lemma StripTagsTag(tag: string, b: string)
    requires IsTag(tag)
    ensures StripTags(tag + b) == StripTags(b)
  {
    var s := tag + b;
    var j := NextClose(s, 1);
    assert s[|tag| - 1] == '>';
    assert j == |tag| - 1;
    assert s[j + 1..] == b;
  }

  /** Two tags between two runs of text that contain no `<` vanish, as on a line of word timings. */
  lemma TwoTagsBetweenText(a: string, t1: string, t2: string, b: string)
    requires '<' !in a && IsTag(t1) && IsTag(t2) && '<' !in b
    ensures StripTags(a + t1 + t2 + b) == a + b
  {
    var rest := t2 + b;
    assert StripTags(rest) == b by {
      StripTagsTag(t2, b);
      StripTagsPlain(b, []);
      assert b + [] == b;
    }
    assert a + t1 + t2 + b == a + (t1 + rest);
    StripTagsPlain(a, t1 + rest);
    StripTagsTag(t1, rest);
  }

  /** A match in the tail of `c + t` is a match in `t`, one index earlier. */
  lemma TagAtShift(c: char, t: string, i: int)
    requires i >= 1
    ensures TagAt([c] + t, i) == TagAt(t, i - 1)
  {
    var u := [c] + t;
    if i + 1 < |u| {
      assert u[i + 2..] == t[i + 1..];
    }
  }

  /** No match of the pattern is left once the substitution is done. */
  lemma {:induction false} StripTagsNoTags(s: string)
    ensures NoTags(StripTags(s))
    decreases |s|
  {
    if s != [] {
      var j := if s[0] == '<' then NextClose(s, 1) else 0;
      if s[0] == '<' && 1 < j < |s| {
        StripTagsNoTags(s[j + 1..]);
      } else {
        var rest := StripTags(s[1..]);
        var r := [s[0]] + rest;
        StripTagsNoTags(s[1..]);
        forall i | 0 <= i < |r| ensures !TagAt(r, i) {
          if i >= 1 {
            TagAtShift(s[0], rest, i);
          } else if s[0] == '<' && j == 1 && |s| > 1 {
            assert s[1..][0] == '>';
            assert r[1] == '>';
          } else if s[0] == '<' && |s| > 1 {
            assert '>' !in s[1..];
            StripTagsAbsent(s[1..], '>');
            assert r[2..] == rest[1..];
          }
        }
      }
    }
  }

  /** A `<` whose next `>` lies more than one character further on starts a match. */
  lemma TagAtStart(s: string)
    requires s != []
    ensures s[0] == '<' && 1 < NextClose(s, 1) < |s| ==> TagAt(s, 0)
  {
    var j := NextClose(s, 1);
    if 1 < j < |s| {
      assert s[2..][j - 2] == '>';
    }
  }

  /** Text with no match of the pattern passes through the substitution unchanged (so `<>` stays). */
  lemma {:induction false} StripTagsFixesTagFree(s: string)
    requires NoTags(s)
    ensures StripTags(s) == s
    decreases |s|
  {
    if s != [] {
      TagAtStart(s);
      forall i | 0 <= i < |s| - 1 ensures !TagAt(s[1..], i) {
        TagAtShift(s[0], s[1..], i + 1);
        assert [s[0]] + s[1..] == s;
      }
      StripTagsFixesTagFree(s[1..]);
      assert [s[0]] + s[1..] == s;
    }
  }

  /** A match in a slice of `t` is a match in `t`. */
  lemma TagAtSlice(t: string, a: int, b: int, i: int)
    requires 0 <= a <= b <= |t|
    ensures TagAt(t[a..b], i) ==> TagAt(t, a + i)
  {
    var u := t[a..b];
    if TagAt(u, i) {
      var k :| i + 2 <= k < |u| && u[k] == '>';
      assert t[a + i + 2..][k - i - 2] == '>';
    }
  }

  /** Cutting text on both sides creates no new match. */
  lemma NoTagsSlice(t: string, a: int, b: int)
    requires NoTags(t) && 0 <= a <= b <= |t|
    ensures NoTags(t[a..b])
  {
    forall i | 0 <= i < b - a ensures !TagAt(t[a..b], i) {
      TagAtSlice(t, a, b, i);
    }
  }
}
