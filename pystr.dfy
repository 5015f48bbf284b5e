/**
  The handful of Python `str` operations the bot relies on, stated on
  `seq<char>` with the meaning CPython gives them: `isspace`, `strip()`,
  `startswith`, `in` / `find`, `split(sep)` and the argument-less `split()`.
 */
module PyStr {
  import opened Wrappers

  /** CPython's whitespace test (`str.isspace`, also used by `strip()` and `split()`). */
  predicate IsSpace(c: char) {
    var n := c as int;
    (0x09 <= n <= 0x0D) || (0x1C <= n <= 0x20) || n == 0x85 || n == 0xA0
    || n == 0x1680 || (0x2000 <= n <= 0x200A) || n == 0x2028 || n == 0x2029
    || n == 0x202F || n == 0x205F || n == 0x3000
  }

  predicate NoSpace(s: string) {
    forall k :: 0 <= k < |s| ==> !IsSpace(s[k])
  }

  /** `s.startswith(prefix)` */
  predicate StartsWith(s: string, prefix: string) {
    |prefix| <= |s| && s[..|prefix|] == prefix
  }

  /** `pat` occurs in `s` starting at index `j`. */
  predicate OccursAt(s: string, pat: string, j: int) {
    0 <= j && j + |pat| <= |s| && s[j..j + |pat|] == pat
  }

  /** Leftmost occurrence of `pat` in `s` at or after `from`. */
  function FindFrom(s: string, pat: string, from: nat): (r: Option<nat>)
    ensures r.Some? ==> from <= r.value && OccursAt(s, pat, r.value)
    ensures r.Some? ==> forall j :: from <= j < r.value ==> !OccursAt(s, pat, j)
    ensures r.None? ==> forall j :: from <= j ==> !OccursAt(s, pat, j)
    decreases |s| - from
  {
    if from + |pat| > |s| then None
    else if s[from..from + |pat|] == pat then Some(from)
    else FindFrom(s, pat, from + 1)
  }

  /** `s.find(pat)`, with `None` for Python's -1. */
  function Find(s: string, pat: string): (r: Option<nat>)
    ensures r.Some? ==> OccursAt(s, pat, r.value) && forall j :: 0 <= j < r.value ==> !OccursAt(s, pat, j)
    ensures r.None? ==> forall j :: !OccursAt(s, pat, j)
  {
    FindFrom(s, pat, 0)
  }

  /** `pat in s` */
  function Contains(s: string, pat: string): (b: bool)
    ensures b <==> exists j :: OccursAt(s, pat, j)
  {
    Find(s, pat).Some?
  }

  /** Leading whitespace removed (`lstrip()`): a suffix that does not start with whitespace. */
  function TrimLeft(s: string): (r: string)
    ensures |r| <= |s| && r == s[|s| - |r|..]
    ensures r == [] || !IsSpace(r[0])
  {
    if s != [] && IsSpace(s[0]) then TrimLeft(s[1..]) else s
  }

  /** Trailing whitespace removed (`rstrip()`): a prefix that does not end with whitespace. */
  function TrimRight(s: string): (r: string)
    ensures |r| <= |s| && r == s[..|r|]
    ensures r == [] || !IsSpace(r[|r| - 1])
  {
    if s != [] && IsSpace(s[|s| - 1]) then TrimRight(s[..|s| - 1]) else s
  }

  /** Number of leading whitespace characters that `strip()` drops. */
  function StripOffset(s: string): nat {
    |s| - |TrimLeft(s)|
  }

  /**
    `s.strip()`: the slice of `s` that starts `StripOffset(s)` characters in,
    and whose ends are not whitespace (`StripDropsOnlySpace` shows that what
    is dropped is).
   */
  function Strip(s: string): (r: string)
    ensures OccursAt(s, r, StripOffset(s))
    ensures r == [] || (!IsSpace(r[0]) && !IsSpace(r[|r| - 1]))
  {
    var t := TrimLeft(s);
    var r := TrimRight(t);
    assert t[..|r|] == s[StripOffset(s)..StripOffset(s) + |r|];
    r
  }

  /** The separator-joined parts (`sep.join(parts)`), the inverse of `Split`. */
  function Join(parts: seq<string>, sep: string): string {
    if parts == [] then ""
    else if |parts| == 1 then parts[0]
    else parts[0] + sep + Join(parts[1..], sep)
  }

  /**
    `s.split(sep)`: the pieces between successive leftmost non-overlapping
    occurrences of `sep`. Python refuses an empty separator.
   */
  function Split(s: string, sep: string): (parts: seq<string>)
    requires sep != []
    ensures |parts| >= 1
    ensures Find(s, sep).None? ==> parts == [s]
    ensures Find(s, sep).Some? ==> |parts| >= 2 && parts[0] == s[..Find(s, sep).value]
    decreases |s|
  {
    match Find(s, sep)
    case None => [s]
    case Some(i) => [s[..i]] + Split(s[i + |sep|..], sep)
  }

  /**
    Longest whitespace-free prefix of `s`: it stops at whitespace or the end,
    and is non-empty when `s` starts with a non-blank.
   */
  function TakeWord(s: string): (w: string)
    ensures |w| <= |s| && w == s[..|w|]
    ensures |w| < |s| ==> IsSpace(s[|w|])
    ensures s != [] && !IsSpace(s[0]) ==> w != []
  {
    if s == [] || IsSpace(s[0]) then [] else [s[0]] + TakeWord(s[1..])
  }

  /** `s.split()`: the maximal runs of non-whitespace characters, in order. */
  function Words(s: string): seq<string>
    decreases |s|
  {
    var t := TrimLeft(s);
    if t == [] then []
    else
      var w := TakeWord(t);
      [w] + Words(t[|w|..])
  }

  // ---------------------------------------------------------------------
  // Lemmas
  // ---------------------------------------------------------------------

  /** An occurrence inside an occurrence is an occurrence in the outer string. */
  lemma OccursAtTrans(s: string, t: string, u: string, a: int, b: int)
    requires OccursAt(s, t, a) && OccursAt(t, u, b)
    ensures OccursAt(s, u, a + b)
  {
    forall k | 0 <= k < |u|
      ensures s[a + b + k] == u[k]
    {
      assert t[b + k] == u[k];
    }
  }

  /** A slice of a string free of `pat` is free of `pat` too. */
  lemma SliceAvoids(s: string, t: string, a: int, pat: string)
    requires OccursAt(s, t, a) && !Contains(s, pat)
    ensures !Contains(t, pat)
  {
    if Contains(t, pat) {
      var j :| OccursAt(t, pat, j);
      OccursAtTrans(s, t, pat, a, j);
      assert false;
    }
  }

  /**
    The whitespace that `strip()` and `split()` remove is CPython's: in ASCII
    exactly tab, line feed, vertical tab, form feed, carriage return, the four
    information separators and space; beyond ASCII it includes the no-break
    and ideographic spaces but not the zero-width space.
   */
  lemma WhitespaceSet()
    ensures forall c: char :: c as int < 0x80 ==>
      (IsSpace(c) <==> c == ' ' || '\t' <= c <= '\r' || '\U{1C}' <= c <= '\U{1F}')
    ensures IsSpace('\U{A0}') && IsSpace('\U{3000}') && !IsSpace('\U{200B}')
  {
  }

  /** Everything `lstrip()` drops is whitespace. */
  lemma {:induction false} TrimLeftDropsSpace(s: string)
    ensures forall k :: 0 <= k < |s| - |TrimLeft(s)| ==> IsSpace(s[k])
    decreases |s|
  {
    if s != [] && IsSpace(s[0]) {
      TrimLeftDropsSpace(s[1..]);
      forall k | 1 <= k < |s| - |TrimLeft(s)|
        ensures IsSpace(s[k])
      {
        assert s[k] == s[1..][k - 1];
      }
    }
  }

  /** Everything `rstrip()` drops is whitespace. */
  lemma {:induction false} TrimRightDropsSpace(s: string)
    ensures forall k :: |TrimRight(s)| <= k < |s| ==> IsSpace(s[k])
    decreases |s|
  {
    if s != [] && IsSpace(s[|s| - 1]) {
      var u := s[..|s| - 1];
      TrimRightDropsSpace(u);
      forall k | |TrimRight(s)| <= k < |s| - 1
        ensures IsSpace(s[k])
      {
        assert s[k] == u[k];
      }
    }
  }

  /** `strip()` drops whitespace only, from both ends. */
  lemma StripDropsOnlySpace(s: string)
    ensures forall k :: 0 <= k < StripOffset(s) ==> IsSpace(s[k])
    ensures forall k :: StripOffset(s) + |Strip(s)| <= k < |s| ==> IsSpace(s[k])
  {
    var t := TrimLeft(s);
    TrimLeftDropsSpace(s);
    TrimRightDropsSpace(t);
    forall k | StripOffset(s) + |Strip(s)| <= k < |s|
      ensures IsSpace(s[k])
    {
      assert s[k] == t[k - StripOffset(s)];
    }
  }

  /** `TakeWord` takes no whitespace. */
  lemma {:induction false} TakeWordNoSpace(s: string)
    ensures NoSpace(TakeWord(s))
  {
    if s != [] && !IsSpace(s[0]) {
      TakeWordNoSpace(s[1..]);
      var w := TakeWord(s);
      forall k | 0 <= k < |w|
        ensures !IsSpace(w[k])
      {
        if k > 0 {
          assert w[k] == TakeWord(s[1..])[k - 1];
        }
      }
    }
  }

  /** The words `split()` yields are non-empty and free of whitespace. */
  lemma {:induction false} WordsShape(s: string)
    ensures forall k :: 0 <= k < |Words(s)| ==> Words(s)[k] != [] && NoSpace(Words(s)[k])
    decreases |s|
  {
    var t := TrimLeft(s);
    if t != [] {
      var w := TakeWord(t);
      var rest := t[|w|..];
      TakeWordNoSpace(t);
      WordsShape(rest);
      var ws := Words(s);
      assert ws == [w] + Words(rest);
      forall k | 0 <= k < |ws|
        ensures ws[k] != [] && NoSpace(ws[k])
      {
        if k > 0 {
          assert ws[k] == Words(rest)[k - 1];
        }
      }
    }
  }

  /** A string that starts with the non-blank `s[0]` has `TakeWord(s)` as first word. */
  lemma FirstWord(s: string)
    requires s != [] && !IsSpace(s[0])
    ensures |Words(s)| >= 1 && Words(s)[0] == TakeWord(s)
  {
  }

  /** The first word of a string starting with a blank-free prefix extends that prefix. */
  lemma {:induction false} FirstWordKeepsPrefix(s: string, prefix: string)
    requires StartsWith(s, prefix) && prefix != [] && NoSpace(prefix)
    ensures |Words(s)| >= 1 && StartsWith(Words(s)[0], prefix) && StartsWith(s, Words(s)[0])
  {
    assert s[0] == prefix[0];
    FirstWord(s);
    TakeWordCovers(s, prefix);
    WordPrefix(TakeWord(s), s, prefix);
  }

  /** A prefix of `s` at least as long as `prefix` starts with it. */
  lemma WordPrefix(w: string, s: string, prefix: string)
    requires |prefix| <= |w| <= |s| && w == s[..|w|] && StartsWith(s, prefix)
    ensures StartsWith(w, prefix) && StartsWith(s, w)
  {
    assert w[..|prefix|] == s[..|prefix|];
  }

  /** `TakeWord` runs at least to the end of a blank-free prefix. */
  lemma TakeWordCovers(s: string, prefix: string)
    requires StartsWith(s, prefix) && NoSpace(prefix)
    ensures |TakeWord(s)| >= |prefix|
  {
  }

  /** The first occurrence is the one no earlier occurrence precedes. */
  lemma FindIsFirst(s: string, pat: string, i: nat)
    requires OccursAt(s, pat, i)
    requires forall j :: 0 <= j < i ==> !OccursAt(s, pat, j)
    ensures Find(s, pat) == Some(i)
  {
  }

  /** `sep.join(s.split(sep)) == s`. */
  lemma {:induction false} SplitJoin(s: string, sep: string)
    requires sep != []
    ensures Join(Split(s, sep), sep) == s
    decreases |s|
  {
    match Find(s, sep)
    case None =>
    case Some(i) =>
      var rest := s[i + |sep|..];
      SplitJoin(rest, sep);
      var parts := Split(s, sep);
      assert parts == [s[..i]] + Split(rest, sep);
      assert parts[1..] == Split(rest, sep);
      assert s == s[..i] + sep + rest;
  }

  /** No part that `split(sep)` returns contains `sep`. */
  lemma {:induction false} SplitPartsAvoidSep(s: string, sep: string)
    requires sep != []
    ensures forall k :: 0 <= k < |Split(s, sep)| ==> !Contains(Split(s, sep)[k], sep)
    decreases |s|
  {
    match Find(s, sep)
    case None =>
    case Some(i) =>
      var rest := s[i + |sep|..];
      SplitPartsAvoidSep(rest, sep);
      BeforeFirstAvoids(s, sep, i);
      assert Split(s, sep) == [s[..i]] + Split(rest, sep);
      ConsAvoids(s[..i], Split(rest, sep), sep);
  }

  lemma ConsAvoids(head: string, tail: seq<string>, sep: string)
    requires !Contains(head, sep)
    requires forall k :: 0 <= k < |tail| ==> !Contains(tail[k], sep)
    ensures forall k :: 0 <= k < |[head] + tail| ==> !Contains(([head] + tail)[k], sep)
  {
    forall k | 0 <= k < |[head] + tail|
      ensures !Contains(([head] + tail)[k], sep)
    {
      if k > 0 {
        assert ([head] + tail)[k] == tail[k - 1];
      }
    }
  }

  /** The text before the first occurrence of `pat` does not contain `pat`. */
  lemma BeforeFirstAvoids(s: string, pat: string, i: nat)
    requires pat != [] && Find(s, pat) == Some(i)
    ensures !Contains(s[..i], pat)
  {
    if Contains(s[..i], pat) {
      var j :| OccursAt(s[..i], pat, j);
      assert s[..i][j..j + |pat|] == s[j..j + |pat|];
      assert OccursAt(s, pat, j);
    }
  }

  /** `s.split(sep)` returns more than one part exactly when `sep in s`. */
  lemma SplitMoreThanOne(s: string, sep: string)
    requires sep != []
    ensures |Split(s, sep)| > 1 <==> Contains(s, sep)
  {
  }
}
