/**
 * The few Python `str` operations the upload handler relies on, written over
 * `seq<char>`: `rsplit(".", 1)`, `lower()`, `replace(old, new)`, `startswith`,
 * `endswith` and `split(sep)`. `Join` is not used by the handler; it is the
 * inverse that pins `Split` down (`JoinSplit`, `SplitJoin`).
 */
module Text {
  import opened Wrappers

  /** Index of the last occurrence of `c` in `s`: what `s.rsplit(c, 1)` splits at. */
  function LastIndexOf(s: string, c: char): (r: Option<nat>)
    ensures r.None? <==> c !in s
    ensures r.Some? ==> r.value < |s| && s[r.value] == c && c !in s[r.value + 1..]
  {
    if s == [] then None
    else if s[|s| - 1] == c then Some(|s| - 1)
    else
      var r := LastIndexOf(s[..|s| - 1], c);
      assert s == s[..|s| - 1] + [s[|s| - 1]];
      if r.Some? then
        assert s[r.value + 1..] == s[..|s| - 1][r.value + 1..] + [s[|s| - 1]];
        r
      else r
  }

  /** `str.lower()` on one character, for the ASCII letters. */
  function LowerChar(c: char): char
  {
    if 'A' <= c <= 'Z' then (c as int + 32) as char else c
  }

  /** `str.lower()`, for the ASCII letters. */
  function Lower(s: string): string
  {
    seq(|s|, i requires 0 <= i < |s| => LowerChar(s[i]))
  }

  /** `s.replace(" ", "_")`: every space becomes an underscore. */
  function ReplaceSpaces(s: string): (r: string)
    ensures |r| == |s|
    ensures ' ' !in r
    ensures forall i :: 0 <= i < |s| ==> r[i] == (if s[i] == ' ' then '_' else s[i])
  {
    seq(|s|, i requires 0 <= i < |s| => if s[i] == ' ' then '_' else s[i])
  }

  /** `s.startswith(p)`. */
  predicate StartsWith(s: string, p: string)
  {
    |p| <= |s| && s[..|p|] == p
  }

  /** `s.endswith(q)`. */
  predicate EndsWith(s: string, q: string)
  {
    |q| <= |s| && s[|s| - |q|..] == q
  }

  /**
   * `s.replace(pat, "")`: one left-to-right pass that deletes every
   * non-overlapping occurrence of `pat`. Text that comes to spell `pat` only
   * after a deletion is kept, as in Python.
   */
  function RemoveAll(s: string, pat: string): (r: string)
    requires |pat| > 0
    ensures |r| <= |s|
    decreases |s|
  {
    if |s| < |pat| then s
    else if s[..|pat|] == pat then RemoveAll(s[|pat|..], pat)
    else [s[0]] + RemoveAll(s[1..], pat)
  }

  /** Text in which no occurrence of `pat` can start is copied unchanged. */
  lemma {:induction false} RemoveAllSkips(a: string, b: string, pat: string)
    requires |pat| > 0 && pat[0] !in a
    ensures RemoveAll(a + b, pat) == a + RemoveAll(b, pat)
  {
    if a != [] {
      assert (a + b)[1..] == a[1..] + b;
      RemoveAllSkips(a[1..], b, pat);
      if |a + b| >= |pat| {
        assert a[0] in a && (a + b)[..|pat|][0] == a[0] && (a + b)[0] == a[0];
        assert RemoveAll(a + b, pat) == [a[0]] + RemoveAll(a[1..] + b, pat);
        assert [a[0]] + (a[1..] + RemoveAll(b, pat)) == a + RemoveAll(b, pat);
      } else {
        assert RemoveAll(b, pat) == b;
      }
    } else {
      assert a + b == b;
    }
  }

  /**
   * Text `a` that differs from `pat` at position `k`, and in which no later
   * occurrence of `pat` can start, is copied unchanged.
   */
  lemma RemoveAllKeepsMismatch(a: string, b: string, pat: string, k: nat)
    requires k < |a| <= |pat| && a[k] != pat[k]
    requires pat[0] !in a[1..]
    ensures RemoveAll(a + b, pat) == a + RemoveAll(b, pat)
  {
    if |a + b| >= |pat| {
      RemoveAllMismatchStep(a + b, pat, k);
      assert (a + b)[1..] == a[1..] + b;
      RemoveAllSkips(a[1..], b, pat);
      assert [a[0]] + a[1..] == a;
    } else {
      RemoveAllShort(a + b, pat);
      RemoveAllShort(b, pat);
    }
  }

  /** Where `s` differs from `pat` at `k`, no occurrence starts at the front: its first character is kept. */
  lemma RemoveAllMismatchStep(s: string, pat: string, k: nat)
    requires k < |pat| <= |s| && s[k] != pat[k]
    ensures RemoveAll(s, pat) == [s[0]] + RemoveAll(s[1..], pat)
  {
    assert s[..|pat|][k] == s[k];
  }

  /** Text shorter than `pat` is kept whole. */
  lemma RemoveAllShort(s: string, pat: string)
    requires |s| < |pat|
    ensures RemoveAll(s, pat) == s
  {
  }

  /** Text that lacks some character of `pat` holds no occurrence of it and is kept whole. */
  lemma {:induction false} RemoveAllMissingChar(s: string, pat: string, c: char)
    requires |pat| > 0 && c in pat && c !in s
    ensures RemoveAll(s, pat) == s
  {
    if |s| >= |pat| {
      assert c !in s[..|pat|];
      RemoveAllMissingChar(s[1..], pat, c);
      assert s == [s[0]] + s[1..];
    }
  }

  /**
   * Text with fewer copies of some character than `pat` has holds no
   * occurrence of `pat` and is kept whole.
   */
  lemma {:induction false} RemoveAllTooFew(s: string, pat: string, c: char)
    requires |pat| > 0 && Occurrences(s, c) < Occurrences(pat, c)
    ensures RemoveAll(s, pat) == s
  {
    if |s| >= |pat| {
      OccurrencesPrefix(s, |pat|, c);
      assert s[..|pat|] != pat;
      RemoveAllTooFew(s[1..], pat, c);
      assert s == [s[0]] + s[1..];
    }
  }

  /** A prefix has no more copies of `c` than the whole text. */
  lemma {:induction false} OccurrencesPrefix(s: string, k: nat, c: char)
    requires k <= |s|
    ensures Occurrences(s[..k], c) <= Occurrences(s, c)
  {
    if k > 0 {
      assert s[..k][1..] == s[1..][..k - 1];
      OccurrencesPrefix(s[1..], k - 1, c);
    }
  }

  /** Copies of `c` add up over a concatenation. */
  lemma {:induction false} OccurrencesAppend(a: string, b: string, c: char)
    ensures Occurrences(a + b, c) == Occurrences(a, c) + Occurrences(b, c)
  {
    if a == [] {
      assert a + b == b;
    } else {
      assert (a + b)[1..] == a[1..] + b;
      OccurrencesAppend(a[1..], b, c);
    }
  }

  /** Text without `c` has no copy of it. */
  lemma {:induction false} OccurrencesNone(s: string, c: char)
    requires c !in s
    ensures Occurrences(s, c) == 0
  {
    if s != [] {
      OccurrencesNone(s[1..], c);
    }
  }

  /** A single trailing occurrence of `pat` is deleted. */
  lemma RemoveAllSuffix(body: string, pat: string)
    requires |pat| > 0 && pat[0] !in body
    ensures RemoveAll(body + pat, pat) == body
  {
    RemoveAllSkips(body, pat, pat);
    RemoveAllDeletes([], pat);
    assert pat + [] == pat;
  }

  /** A leading occurrence of `pat` is deleted and the pass resumes after it. */
  lemma RemoveAllDeletes(b: string, pat: string)
    requires |pat| > 0
    ensures RemoveAll(pat + b, pat) == RemoveAll(b, pat)
  {
    assert (pat + b)[..|pat|] == pat;
    assert (pat + b)[|pat|..] == b;
  }

  /** Number of occurrences of `c` in `s`. */
  function Occurrences(s: string, c: char): nat
  {
    if s == [] then 0 else (if s[0] == c then 1 else 0) + Occurrences(s[1..], c)
  }

  /**
   * `s.split(sep)` with an explicit separator: the pieces between separators,
   * empty pieces included, so `"".split("_") == [""]`.
   */
  function Split(s: string, sep: char): (r: seq<string>)
    ensures |r| == Occurrences(s, sep) + 1
    ensures forall i :: 0 <= i < |r| ==> sep !in r[i]
    decreases |s|
  {
    if s == [] then [""]
    else
      var rest := Split(s[1..], sep);
      assert s == [s[0]] + s[1..];
      if s[0] == sep then [""] + rest
      else [[s[0]] + rest[0]] + rest[1..]
  }

  /** `sep.join(parts)`. */
  function Join(parts: seq<string>, sep: char): string
  {
    if parts == [] then ""
    else if |parts| == 1 then parts[0]
    else parts[0] + [sep] + Join(parts[1..], sep)
  }

  /** Joining the pieces of a split gives back the original text. */
  lemma {:induction false} JoinSplit(s: string, sep: char)
    ensures Join(Split(s, sep), sep) == s
  {
    if s != [] {
      var rest := Split(s[1..], sep);
      JoinSplit(s[1..], sep);
      assert s == [s[0]] + s[1..];
      if s[0] != sep {
        if |rest| > 1 {
          assert rest == [rest[0]] + rest[1..];
        }
      }
    }
  }

  /** Splitting at a first separator: the text before it is the first piece. */
  lemma {:induction false} SplitAtFirst(a: string, b: string, sep: char)
    requires sep !in a
    ensures Split(a + [sep] + b, sep) == [a] + Split(b, sep)
  {
    if a == [] {
      assert a + [sep] + b == [sep] + b;
      assert ([sep] + b)[1..] == b;
    } else {
      assert (a + [sep] + b)[1..] == a[1..] + [sep] + b;
      SplitAtFirst(a[1..], b, sep);
      assert [a[0]] + a[1..] == a;
    }
  }

  /** The first piece ends at the first separator, or at the end of the text. */
  lemma SplitFirstPiece(a: string, rest: string, sep: char)
    requires sep !in a
    requires rest == [] || rest[0] == sep
    ensures Split(a + rest, sep)[0] == a
  {
    if rest == [] {
      assert a + rest == a;
      SplitNone(a, sep);
    } else {
      assert a + rest == a + [sep] + rest[1..];
      SplitAtFirst(a, rest[1..], sep);
    }
  }

  /** Text without a separator is a single piece. */
  lemma {:induction false} SplitNone(a: string, sep: char)
    requires sep !in a
    ensures Split(a, sep) == [a]
  {
    if a != [] {
      SplitNone(a[1..], sep);
      assert [a[0]] + a[1..] == a;
    }
  }

  /** Splitting pieces that hold no separator undoes joining them. */
  lemma {:induction false} SplitJoin(parts: seq<string>, sep: char)
    requires |parts| > 0
    requires forall i :: 0 <= i < |parts| ==> sep !in parts[i]
    ensures Split(Join(parts, sep), sep) == parts
  {
    if |parts| == 1 {
      SplitNone(parts[0], sep);
    } else {
      SplitJoin(parts[1..], sep);
      SplitAtFirst(parts[0], Join(parts[1..], sep), sep);
      assert [parts[0]] + parts[1..] == parts;
    }
  }
}
