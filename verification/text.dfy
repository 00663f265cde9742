/**
 * The string primitives the program relies on: Python's `str.strip`,
 * `str.split` with a one-character separator, and the subsequence relation
 * used to describe what a filter keeps.
 */
module Text {

  /** Python's `str.isspace`: the characters `str.strip()` removes by default. */
  predicate IsSpace(c: char) {
    || c == ' ' || c == '\t' || c == '\n' || c == '\r'
    || c == '\U{000B}' || c == '\U{000C}'
    || ('\U{001C}' <= c <= '\U{001F}')
    || c == '\U{0085}' || c == '\U{00A0}' || c == '\U{1680}'
    || ('\U{2000}' <= c <= '\U{200A}')
    || c == '\U{2028}' || c == '\U{2029}' || c == '\U{202F}'
    || c == '\U{205F}' || c == '\U{3000}'
  }

  /** No character of `s` satisfies `drop`. */
  predicate NoneOf(s: string, drop: char -> bool) {
    forall k :: 0 <= k < |s| ==> !drop(s[k])
  }

  /** Every character of `s` satisfies `drop`. */
  predicate AllOf(s: string, drop: char -> bool) {
    forall k :: 0 <= k < |s| ==> drop(s[k])
  }

  /** Neither end of `s` is a character satisfying `drop`. */
  predicate Unpadded(s: string, drop: char -> bool) {
    |s| == 0 || (!drop(s[0]) && !drop(s[|s| - 1]))
  }

  /** Removes the leading characters that satisfy `drop`. */
  function TrimStart(s: string, drop: char -> bool): (r: string)
    ensures |r| <= |s| && r == s[|s| - |r|..]
    ensures AllOf(s[..|s| - |r|], drop)
    ensures |r| == 0 || !drop(r[0])
    decreases |s|
  {
    if |s| > 0 && drop(s[0]) then
      var r := TrimStart(s[1..], drop);
      assert s[..|s| - |r|] == [s[0]] + s[1..][..|s| - 1 - |r|];
      r
    else s
  }

  /** Removes the trailing characters that satisfy `drop`. */
  function TrimEnd(s: string, drop: char -> bool): (r: string)
    ensures |r| <= |s| && r == s[..|r|]
    ensures AllOf(s[|r|..], drop)
    ensures |r| == 0 || !drop(r[|r| - 1])
    decreases |s|
  {
    if |s| > 0 && drop(s[|s| - 1]) then
      var r := TrimEnd(s[..|s| - 1], drop);
      assert s[|r|..] == s[..|s| - 1][|r|..] + [s[|s| - 1]];
      r
    else s
  }

  /**
   * `r` is a slice of `s` with only characters satisfying `drop` around it.
   * `Trim` states the same fact spelled out rather than through this
   * predicate, which keeps its own proof cheap; `TrimFramed` restates it.
   */
  predicate Framed(r: string, s: string, drop: char -> bool) {
    exists i, j :: 0 <= i <= j <= |s| && r == s[i..j] && AllOf(s[..i], drop) && AllOf(s[j..], drop)
  }

  /**
   * Python's `s.strip(chars)`: removes every leading and trailing character
   * that satisfies `drop` and keeps the middle untouched.
   */
  function Trim(s: string, drop: char -> bool): (r: string)
    ensures Unpadded(r, drop)
    ensures exists i, j :: 0 <= i <= j <= |s| && r == s[i..j]
                           && AllOf(s[..i], drop) && AllOf(s[j..], drop)
  {
    var t := TrimStart(s, drop);
    var r := TrimEnd(t, drop);
    TrimParts(s, t, r, drop);
    r
  }

  /** Gluing the two halves of a trim: `r` is a slice of `s` with only dropped characters around it. */
  lemma TrimParts(s: string, t: string, r: string, drop: char -> bool)
    requires |t| <= |s| && t == s[|s| - |t|..] && AllOf(s[..|s| - |t|], drop)
    requires |t| == 0 || !drop(t[0])
    requires |r| <= |t| && r == t[..|r|] && AllOf(t[|r|..], drop)
    requires |r| == 0 || !drop(r[|r| - 1])
    ensures Unpadded(r, drop)
    ensures var i := |s| - |t|;
            r == s[i..i + |r|] && AllOf(s[..i], drop) && AllOf(s[i + |r|..], drop)
  {
    var i := |s| - |t|;
    assert s[i + |r|..] == t[|r|..];
    assert |r| > 0 ==> r[0] == t[0];
  }

  /** Python's `s.strip()` with no argument. */
  function Strip(s: string): string {
    Trim(s, IsSpace)
  }

  lemma TrimUnpadded(s: string, drop: char -> bool)
    requires Unpadded(s, drop)
    ensures Trim(s, drop) == s
  {
  }

  /** The slice characterisation of `Trim`, stated as `Framed`. */
  lemma TrimFramed(s: string, drop: char -> bool)
    ensures Framed(Trim(s, drop), s, drop)
  {
    var i, j :| 0 <= i <= j <= |s| && Trim(s, drop) == s[i..j]
                && AllOf(s[..i], drop) && AllOf(s[j..], drop);
  }

  /** Trimming twice removes nothing more than trimming once. */
  lemma TrimIdempotent(s: string, drop: char -> bool)
    ensures Trim(Trim(s, drop), drop) == Trim(s, drop)
  {
    TrimUnpadded(Trim(s, drop), drop);
  }

  /** Trimming never introduces a character the input did not contain. */
  lemma TrimKeepsNoneOf(s: string, drop: char -> bool, bad: char -> bool)
    requires NoneOf(s, bad)
    ensures NoneOf(Trim(s, drop), bad)
  {
    var r := Trim(s, drop);
    var i, j :| 0 <= i <= j <= |s| && r == s[i..j];
    NoneOfSlice(s, bad, i, j);
  }

  lemma NoneOfSlice(s: string, bad: char -> bool, i: nat, j: nat)
    requires NoneOf(s, bad) && i <= j <= |s|
    ensures NoneOf(s[i..j], bad)
  {
    forall k | 0 <= k < j - i ensures !bad(s[i..j][k]) {
      assert s[i..j][k] == s[i + k];
    }
  }

  /** Every character of `s` that `drop` does not reject survives trimming. */
  lemma TrimKeepsInner(s: string, drop: char -> bool, c: char)
    requires c in s && !drop(c)
    ensures c in Trim(s, drop)
  {
    var r := Trim(s, drop);
    var i, j :| 0 <= i <= j <= |s| && r == s[i..j] && AllOf(s[..i], drop) && AllOf(s[j..], drop);
    SliceSplit(s, i, j);
    AllOfExcludes(s[..i], drop, c);
    AllOfExcludes(s[j..], drop, c);
  }

  lemma SliceSplit(s: string, i: nat, j: nat)
    requires i <= j <= |s|
    ensures s == s[..i] + s[i..j] + s[j..]
  {
  }

  lemma AllOfExcludes(t: string, drop: char -> bool, c: char)
    requires AllOf(t, drop) && !drop(c)
    ensures c !in t
  {
  }

  lemma TrimStartKeeps(s: string, drop: char -> bool)
    requires |s| == 0 || !drop(s[0])
    ensures TrimStart(s, drop) == s
  {
  }

  lemma TrimStartCons(c: char, s: string, drop: char -> bool)
    requires drop(c)
    ensures TrimStart([c] + s, drop) == TrimStart(s, drop)
  {
    assert ([c] + s)[1..] == s;
  }

  /** Trimming the end keeps any prefix whose last character is not dropped. */
  lemma TrimEndKeepsPrefix(s: string, drop: char -> bool, a: string)
    requires |a| > 0 && a <= s && !drop(a[|a| - 1])
    ensures a <= TrimEnd(s, drop)
  {
  }

  lemma {:induction false} TrimStartSnoc(s: string, drop: char -> bool, c: char)
    requires drop(c)
    ensures TrimStart(s + [c], drop) == if |TrimStart(s, drop)| > 0 then TrimStart(s, drop) + [c] else []
    decreases |s|
  {
    if |s| == 0 {
      assert s + [c] == [c];
      assert [c][1..] == [];
    } else {
      assert (s + [c])[1..] == s[1..] + [c];
      if drop(s[0]) {
        TrimStartSnoc(s[1..], drop, c);
      }
    }
  }

  /** A trailing dropped character makes no difference to the trimmed result. */
  lemma TrimSnoc(s: string, drop: char -> bool, c: char)
    requires drop(c)
    ensures Trim(s + [c], drop) == Trim(s, drop)
  {
    TrimStartSnoc(s, drop, c);
    var t := TrimStart(s, drop);
    if |t| > 0 {
      TrimEndSnoc(t, drop, c);
    }
  }

  lemma TrimEndSnoc(t: string, drop: char -> bool, c: char)
    requires drop(c)
    ensures TrimEnd(t + [c], drop) == TrimEnd(t, drop)
  {
    assert (t + [c])[..|t + [c]| - 1] == t;
  }

  // ---------------------------------------------------------------------
  // Subsequences
  // ---------------------------------------------------------------------

  /** `a` can be obtained from `b` by deleting characters. */
  predicate IsSubseq(a: string, b: string)
    decreases |b|
  {
    |a| == 0 || (|b| > 0 && ((a[0] == b[0] && IsSubseq(a[1..], b[1..])) || IsSubseq(a, b[1..])))
  }

  lemma {:induction false} PrefixIsSubseq(s: string, j: nat)
    requires j <= |s|
    ensures IsSubseq(s[..j], s)
    decreases j
  {
    if j > 0 {
      PrefixIsSubseq(s[1..], j - 1);
      assert s[..j][1..] == s[1..][..j - 1];
    }
  }

  lemma {:induction false} SliceIsSubseq(s: string, i: nat, j: nat)
    requires i <= j <= |s|
    ensures IsSubseq(s[i..j], s)
    decreases i
  {
    if i == 0 {
      assert s[i..j] == s[..j];
      PrefixIsSubseq(s, j);
    } else {
      SliceIsSubseq(s[1..], i - 1, j - 1);
      assert s[1..][i - 1..j - 1] == s[i..j];
    }
  }

  lemma {:induction false} SubseqTransitive(a: string, b: string, c: string)
    requires IsSubseq(a, b) && IsSubseq(b, c)
    ensures IsSubseq(a, c)
    decreases |c|
  {
    if |a| > 0 {
      if IsSubseq(b, c[1..]) {
        SubseqTransitive(a, b, c[1..]);
      } else if a[0] == b[0] && IsSubseq(a[1..], b[1..]) {
        SubseqTransitive(a[1..], b[1..], c[1..]);
      } else {
        SubseqTransitive(a, b[1..], c[1..]);
      }
    }
  }

  /** A trimmed string is a subsequence (indeed a slice) of the original. */
  lemma TrimIsSubseq(s: string, drop: char -> bool)
    ensures IsSubseq(Trim(s, drop), s)
  {
    var r := Trim(s, drop);
    var i, j :| 0 <= i <= j <= |s| && r == s[i..j];
    SliceIsSubseq(s, i, j);
  }

  // ---------------------------------------------------------------------
  // Splitting on one separator character
  // ---------------------------------------------------------------------

  /** The text before the first `sep`, or all of `s` when `sep` does not occur. */
  function TakeUntil(s: string, sep: char): (r: string)
    ensures |r| <= |s| && r == s[..|r|]
    ensures sep !in r
    ensures |r| < |s| ==> s[|r|] == sep
    decreases |s|
  {
    if |s| == 0 || s[0] == sep then "" else [s[0]] + TakeUntil(s[1..], sep)
  }

  /** Concatenates `parts` with one `sep` between neighbours, as Python's `sep.join`. */
  function Join(parts: seq<string>, sep: char): string
    requires |parts| >= 1
    decreases |parts|
  {
    if |parts| == 1 then parts[0] else parts[0] + [sep] + Join(parts[1..], sep)
  }

  /**
   * Python's `s.split(sep)`: the maximal pieces between occurrences of `sep`,
   * including empty pieces; the empty string splits into one empty piece.
   */
  function Split(s: string, sep: char): (parts: seq<string>)
    ensures |parts| >= 1
    ensures forall k :: 0 <= k < |parts| ==> sep !in parts[k]
    ensures Join(parts, sep) == s
    decreases |s|
  {
    if |s| == 0 then [""]
    else
      var rest := Split(s[1..], sep);
      if s[0] == sep then
        [""] + rest
      else
        assert Join(rest, sep) == s[1..];
        var parts := [[s[0]] + rest[0]] + rest[1..];
        assert parts[1..] == rest[1..];
        assert Join(parts, sep) == s by {
          if |rest| == 1 {
          } else {
            assert Join(rest, sep) == rest[0] + [sep] + Join(rest[1..], sep);
          }
        }
        parts
  }

  lemma {:induction false} TakeUntilWhole(a: string, sep: char)
    requires sep !in a
    ensures TakeUntil(a, sep) == a
    decreases |a|
  {
    if |a| > 0 {
      TakeUntilWhole(a[1..], sep);
    }
  }

  lemma {:induction false} TakeUntilBefore(a: string, sep: char, b: string)
    requires sep !in a
    ensures TakeUntil(a + [sep] + b, sep) == a
    decreases |a|
  {
    if |a| > 0 {
      assert (a + [sep] + b)[1..] == a[1..] + [sep] + b;
      TakeUntilBefore(a[1..], sep, b);
    }
  }

  /**
   * The first piece of a split is the text before the first separator, and
   * the remaining pieces are the split of what follows that separator.
   */
  lemma {:induction false} SplitHead(s: string, sep: char)
    ensures Split(s, sep)[0] == TakeUntil(s, sep)
    ensures sep !in s ==> |Split(s, sep)| == 1
    ensures sep in s ==> |TakeUntil(s, sep)| < |s|
                         && Split(s, sep)[1..] == Split(s[|TakeUntil(s, sep)| + 1..], sep)
    decreases |s|
  {
    if |s| > 0 && s[0] != sep {
      SplitHead(s[1..], sep);
      if sep in s {
        assert sep in s[1..];
        assert s[1..][|TakeUntil(s[1..], sep)| + 1..] == s[|TakeUntil(s, sep)| + 1..];
      }
    }
  }

  /** Splitting a join of separator-free pieces gives the pieces back. */
  lemma {:induction false} SplitJoin(parts: seq<string>, sep: char)
    requires |parts| >= 1
    requires forall k :: 0 <= k < |parts| ==> sep !in parts[k]
    ensures Split(Join(parts, sep), sep) == parts
    decreases |parts|
  {
    var s := Join(parts, sep);
    SplitHead(s, sep);
    if |parts| == 1 {
      TakeUntilWhole(parts[0], sep);
    } else {
      var tail := Join(parts[1..], sep);
      TakeUntilBefore(parts[0], sep, tail);
      assert s[|parts[0]| + 1..] == tail;
      SplitJoin(parts[1..], sep);
      assert sep in s by { assert s[|parts[0]|] == sep; }
    }
  }
}
