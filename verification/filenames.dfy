/** `safe_filename`: the file-name stem a search query is saved under. */
module Filenames {
  import opened Text

  /** The nine characters that are not allowed in a file name: \ / : * ? " < > | */
  predicate IsForbidden(c: char) {
    c == '\\' || c == '/' || c == ':' || c == '*' || c == '?'
    || c == '"' || c == '<' || c == '>' || c == '|'
  }

  /** Deletes every forbidden character and keeps the others in order. */
  function DropForbidden(s: string): (r: string)
    ensures NoneOf(r, IsForbidden)
    ensures IsSubseq(r, s)
    ensures forall c :: c in s && !IsForbidden(c) ==> c in r
    ensures forall c :: !IsForbidden(c) ==> multiset(r)[c] == multiset(s)[c]
    decreases |s|
  {
    if |s| == 0 then ""
    else
      var rest := DropForbidden(s[1..]);
      assert forall c :: c in s ==> c == s[0] || c in s[1..];
      var r := if IsForbidden(s[0]) then rest else [s[0]] + rest;
      DropCounts(s, rest, r);
      r
  }

  /** The filter keeps the count of every allowed character, one step at a time. */
  lemma DropCounts(s: string, rest: string, r: string)
    requires |s| > 0
    requires forall c :: !IsForbidden(c) ==> multiset(rest)[c] == multiset(s[1..])[c]
    requires r == if IsForbidden(s[0]) then rest else [s[0]] + rest
    ensures forall c :: !IsForbidden(c) ==> multiset(r)[c] == multiset(s)[c]
  {
    assert s == [s[0]] + s[1..];
    assert multiset(s) == multiset([s[0]]) + multiset(s[1..]);
  }

  /** A string without forbidden characters passes through the filter unchanged. */
  lemma {:induction false} DropForbiddenClean(s: string)
    requires NoneOf(s, IsForbidden)
    ensures DropForbidden(s) == s
    decreases |s|
  {
    if |s| > 0 {
      DropForbiddenClean(s[1..]);
    }
  }

  /**
   * `safe_filename(name)`: the forbidden characters are deleted and the
   * surrounding whitespace of what remains is stripped.
   */
  function SafeFilename(name: string): (r: string)
    ensures NoneOf(r, IsForbidden)
    ensures Unpadded(r, IsSpace)
    ensures IsSubseq(r, name)
    ensures forall c :: c in name && !IsForbidden(c) && !IsSpace(c) ==> c in r
    ensures Framed(r, DropForbidden(name), IsSpace)
  {
    var kept := DropForbidden(name);
    StripOfFiltered(name, kept);
    Strip(kept)
  }

  /** What stripping adds to the guarantees of the filter. */
  lemma StripOfFiltered(name: string, kept: string)
    requires NoneOf(kept, IsForbidden) && IsSubseq(kept, name)
    requires forall c :: c in name && !IsForbidden(c) ==> c in kept
    ensures NoneOf(Strip(kept), IsForbidden) && IsSubseq(Strip(kept), name)
    ensures forall c :: c in name && !IsForbidden(c) && !IsSpace(c) ==> c in Strip(kept)
    ensures Framed(Strip(kept), kept, IsSpace)
  {
    TrimFramed(kept, IsSpace);
    var r := Strip(kept);
    TrimKeepsNoneOf(kept, IsSpace, IsForbidden);
    TrimIsSubseq(kept, IsSpace);
    SubseqTransitive(r, kept, name);
    forall c | c in name && !IsForbidden(c) && !IsSpace(c) ensures c in r {
      TrimKeepsInner(kept, IsSpace, c);
    }
  }

  /** Sanitising an already sanitised name changes nothing. */
  lemma SafeFilenameIdempotent(name: string)
    ensures SafeFilename(SafeFilename(name)) == SafeFilename(name)
  {
    var once := SafeFilename(name);
    DropForbiddenClean(once);
    TrimUnpadded(once, IsSpace);
  }
}
