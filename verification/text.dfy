/** String helpers the renderer relies on: Go's `strings.Join`, and a count
    of the places a pattern occurs in a text. */
module Text {

  /** `strings.Join(parts, sep)`: the parts in order, with `sep` between
      neighbours and nowhere else. */
  function Join(parts: seq<string>, sep: string): (r: string)
    ensures |parts| > 0 ==> StartsWith(r, parts[0]) && EndsWith(r, parts[|parts| - 1])
    ensures |parts| > 1 ==> StartsWith(r, parts[0] + sep)
    ensures |parts| == 0 ==> r == ""
    ensures |parts| == 1 ==> r == parts[0]
    decreases |parts|
  {
    if |parts| == 0 then ""
    else if |parts| == 1 then parts[0]
    else parts[0] + sep + Join(parts[1..], sep)
  }

  /** The images of the elements under `f`, one after the other. */
  function ConcatMap<T>(xs: seq<T>, f: T -> string): (r: string)
    decreases |xs|
  {
    if |xs| == 0 then "" else f(xs[0]) + ConcatMap(xs[1..], f)
  }

  lemma {:induction false} ConcatMapAppend<T>(xs: seq<T>, ys: seq<T>, f: T -> string)
    ensures ConcatMap(xs + ys, f) == ConcatMap(xs, f) + ConcatMap(ys, f)
    decreases |xs|
  {
    if |xs| == 0 {
      assert xs + ys == ys;
    } else {
      assert (xs + ys)[1..] == xs[1..] + ys;
      ConcatMapAppend(xs[1..], ys, f);
      AppendAssoc(f(xs[0]), ConcatMap(xs[1..], f), ConcatMap(ys, f));
    }
  }

  lemma ConcatMapPrefixStep<T>(xs: seq<T>, i: nat, f: T -> string)
    requires i < |xs|
    ensures ConcatMap(xs[..i + 1], f) == ConcatMap(xs[..i], f) + f(xs[i])
  {
    assert xs[..i + 1] == xs[..i] + [xs[i]];
    ConcatMapAppend(xs[..i], [xs[i]], f);
    assert ConcatMap([xs[i]], f) == f(xs[i]) + ConcatMap([], f);
  }

  /** The outer parts of a three-part concatenation are its prefix and its
      suffix. */
  lemma Framed(a: string, b: string, c: string)
    ensures StartsWith(a + b + c, a) && EndsWith(a + b + c, c)
  {
    var s := a + b + c;
    assert s[..|a|] == a;
    assert s[|s| - |c|..] == c;
  }

  /** Appending a part to a non-empty list appends the separator and that
      part to the join: with `Join([x], sep) == x`, this fixes the join of
      every list. */
  lemma {:induction false} JoinSnoc(parts: seq<string>, x: string, sep: string)
    requires |parts| > 0
    ensures Join(parts + [x], sep) == Join(parts, sep) + sep + x
    decreases |parts|
  {
    if |parts| == 1 {
      assert parts + [x] == [parts[0], x];
      assert [parts[0], x][1..] == [x];
    } else {
      var rest := parts[1..];
      assert (parts + [x])[1..] == rest + [x];
      JoinSnoc(rest, x, sep);
      AppendAssoc(parts[0] + sep, Join(rest, sep) + sep, x);
      AppendAssoc(parts[0] + sep, Join(rest, sep), sep);
    }
  }

  lemma JoinThree(a: string, b: string, c: string, sep: string)
    ensures Join([a, b, c], sep) == a + sep + b + sep + c
  {
    assert [a, b, c][1..] == [b, c];
    assert [b, c][1..] == [c];
    assert Join([c], sep) == c;
    assert Join([b, c], sep) == b + sep + c;
    AppendAssoc(a + sep, b + sep, c);
    AppendAssoc(a + sep, b, sep);
    AppendAssoc(a, sep, b + sep + c);
  }

  predicate StartsWith(s: string, prefix: string) {
    |prefix| <= |s| && s[..|prefix|] == prefix
  }

  predicate EndsWith(s: string, suffix: string) {
    |suffix| <= |s| && s[|s| - |suffix|..] == suffix
  }

  /** A character absent from every part and from the separator is absent
      from the join. */
  lemma {:induction false} JoinExcludes(parts: seq<string>, sep: string, c: char)
    requires forall i :: 0 <= i < |parts| ==> c !in parts[i]
    requires c !in sep
    ensures c !in Join(parts, sep)
    decreases |parts|
  {
    if |parts| > 1 {
      JoinExcludes(parts[1..], sep, c);
      assert c !in parts[0];
    }
  }

  lemma AppendAssoc(a: string, b: string, c: string)
    ensures (a + b) + c == a + (b + c)
  {
  }

  /** Whether `pat` occurs in `s` starting at index `i`. */
  predicate OccursAt(pat: string, s: string, i: int) {
    0 <= i && i + |pat| <= |s| && s[i..i + |pat|] == pat
  }

  /** The number of (possibly overlapping) positions at which `pat` occurs
      in `s`. */
  function Occurrences(pat: string, s: string): (n: nat)
    requires |pat| > 0
    decreases |s|
  {
    if |s| < |pat| then 0
    else (if s[..|pat|] == pat then 1 else 0) + Occurrences(pat, s[1..])
  }

  /** An occurrence at any index is counted. */
  lemma {:induction false} OccursAtCounted(pat: string, s: string, i: int)
    requires |pat| > 0 && OccursAt(pat, s, i)
    ensures Occurrences(pat, s) > 0
    decreases i
  {
    if i > 0 {
      assert s[1..][i - 1..i - 1 + |pat|] == s[i..i + |pat|];
      OccursAtCounted(pat, s[1..], i - 1);
    }
  }

  /** `Occurrences` counts something exactly when `pat` occurs somewhere. */
  lemma {:induction false} OccurrencesPositive(pat: string, s: string)
    requires |pat| > 0
    ensures Occurrences(pat, s) > 0 <==> exists i :: OccursAt(pat, s, i)
    decreases |s|
  {
    if exists i :: OccursAt(pat, s, i) {
      var i :| OccursAt(pat, s, i);
      OccursAtCounted(pat, s, i);
    } else if |s| >= |pat| {
      if s[..|pat|] == pat {
        assert OccursAt(pat, s, 0);
      } else {
        OccurrencesPositive(pat, s[1..]);
        if Occurrences(pat, s[1..]) > 0 {
          var i :| OccursAt(pat, s[1..], i);
          assert s[1..][i..i + |pat|] == s[i + 1..i + 1 + |pat|];
          assert OccursAt(pat, s, i + 1);
        }
      }
    }
  }

  /** A prefix free of the pattern's first character contributes no
      occurrence and cannot start one that runs into what follows it. */
  lemma {:induction false} OccurrencesSkipFree(pat: string, a: string, b: string)
    requires |pat| > 0 && pat[0] !in a
    ensures Occurrences(pat, a + b) == Occurrences(pat, b)
    decreases |a|
  {
    if |a| > 0 {
      assert (a + b)[1..] == a[1..] + b;
      assert a[0] in a;
      if |a + b| >= |pat| {
        assert (a + b)[..|pat|][0] == a[0];
      }
      OccurrencesSkipFree(pat, a[1..], b);
    } else {
      assert a + b == b;
    }
  }

  /** Text that starts with the pattern, whose first character does not recur
      inside it, holds one occurrence there and none that overlaps it. */
  lemma OccurrencesLead(pat: string, b: string)
    requires |pat| > 0 && pat[0] !in pat[1..]
    ensures Occurrences(pat, pat + b) == 1 + Occurrences(pat, b)
  {
    assert (pat + b)[..|pat|] == pat;
    assert (pat + b)[1..] == pat[1..] + b;
    OccurrencesSkipFree(pat, pat[1..], b);
  }

  /** A chunk that starts like the pattern but departs from it at index `k`,
      and holds the pattern's first character nowhere else, contributes no
      occurrence. */
  lemma OccurrencesMismatch(pat: string, c: string, b: string, k: nat)
    requires |pat| > 0 && |c| > 0
    requires k < |c| && k < |pat| && c[k] != pat[k]
    requires pat[0] !in c[1..]
    ensures Occurrences(pat, c + b) == Occurrences(pat, b)
  {
    assert (c + b)[1..] == c[1..] + b;
    if |c + b| >= |pat| {
      assert (c + b)[..|pat|][k] == c[k];
    }
    OccurrencesSkipFree(pat, c[1..], b);
  }

  /** Occurrences add up across a split, provided the second part does not
      begin with a character that can only continue the pattern. */
  lemma {:induction false} OccurrencesSplit(pat: string, a: string, b: string)
    requires |pat| > 0
    requires |b| == 0 || b[0] !in pat[1..]
    ensures Occurrences(pat, a + b) == Occurrences(pat, a) + Occurrences(pat, b)
    decreases |a|
  {
    if |a| == 0 {
      assert a + b == b;
    } else {
      assert (a + b)[1..] == a[1..] + b;
      OccurrencesSplit(pat, a[1..], b);
      if |a| >= |pat| {
        assert (a + b)[..|pat|] == a[..|pat|];
      } else if |a + b| >= |pat| {
        assert pat[|a|] == pat[1..][|a| - 1];
        assert (a + b)[..|pat|][|a|] == b[0];
      }
    }
  }
}
