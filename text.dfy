/** Character classes and string helpers shared by the handle extractor and the link scanner. */
module Text {

  /** The characters Python's `str.isspace` accepts, which is also the set the `\s` class of
      `re` matches in a str pattern: the ASCII controls 0x09-0x0D and 0x1C-0x1F, the space, and
      the Unicode separators. `\S` is its complement. */
  predicate IsSpace(c: char) {
    || ('\t' <= c <= '\r')
    || ('\U{1C}' <= c <= '\U{1F}')
    || c == ' '
    || c == '\U{85}' || c == '\U{A0}' || c == '\U{1680}'
    || ('\U{2000}' <= c <= '\U{200A}')
    || c == '\U{2028}' || c == '\U{2029}' || c == '\U{202F}' || c == '\U{205F}' || c == '\U{3000}'
  }

  /** The characters of IsSpace, as a set to search for. */
  const Whitespace: set<char> := set c: char | IsSpace(c)

  /** ASCII case folding of one character; every other character is left alone. */
  function LowerChar(c: char): char {
    if 'A' <= c <= 'Z' then (c as int + 32) as char else c
  }

  /** `s.lower()` restricted to ASCII case folding. */
  function Lower(s: string): (r: string)
    ensures |r| == |s|
    ensures forall k :: 0 <= k < |s| ==> r[k] == LowerChar(s[k])
  {
    seq(|s|, k requires 0 <= k < |s| => LowerChar(s[k]))
  }

  /** Python's `t in s` on strings: `t` occurs somewhere in `s` as a contiguous piece. */
  predicate Contains(s: string, t: string) {
    exists i :: 0 <= i <= |s| && t <= s[i..]
  }

  /** No character of `s` is one of `cs`. */
  predicate NoneIn(s: string, cs: set<char>) {
    forall k :: 0 <= k < |s| ==> s[k] !in cs
  }

  /** Text made of two pieces without a character from `cs` has none either. */
  lemma NoneInConcat(a: string, b: string, cs: set<char>)
    requires NoneIn(a, cs) && NoneIn(b, cs)
    ensures NoneIn(a + b, cs)
  {
    forall k | 0 <= k < |a + b| ensures (a + b)[k] !in cs {
      if k >= |a| { assert (a + b)[k] == b[k - |a|]; }
    }
  }

  /** The first index at or after `from` whose character is in `stops`, or `|s|` when none is. */
  function FindFirst(s: string, stops: set<char>, from: nat): (k: nat)
    requires from <= |s|
    ensures from <= k <= |s|
    ensures forall p :: from <= p < k ==> s[p] !in stops
    ensures k == |s| || s[k] in stops
    decreases |s| - from
  {
    if from == |s| || s[from] in stops then from else FindFirst(s, stops, from + 1)
  }

  /** The contract of FindFirst determines its result. */
  lemma {:induction false} FindFirstUnique(s: string, stops: set<char>, from: nat, k: nat)
    requires from <= k <= |s|
    requires forall p :: from <= p < k ==> s[p] !in stops
    requires k == |s| || s[k] in stops
    ensures FindFirst(s, stops, from) == k
    decreases k - from
  {
    if from < k {
      FindFirstUnique(s, stops, from + 1, k);
    }
  }

  /** Searching from `p` is searching the text from `p` on, shifted by `p`. */
  lemma FindFirstFrom(s: string, stops: set<char>, p: nat)
    requires p <= |s|
    ensures FindFirst(s, stops, p) == p + FindFirst(s[p..], stops, 0)
  {
    var t := s[p..];
    var j := FindFirst(t, stops, 0);
    assert forall q :: p <= q < |s| ==> s[q] == t[q - p];
    FindFirstUnique(s, stops, p, p + j);
  }

  /** FindFirst passes over a leading piece `a` holding none of the stop characters. */
  lemma FindFirstAfter(a: string, b: string, stops: set<char>)
    requires forall k :: 0 <= k < |a| ==> a[k] !in stops
    ensures FindFirst(a + b, stops, 0) == |a| + FindFirst(b, stops, 0)
  {
    var s := a + b;
    var j := FindFirst(b, stops, 0);
    assert forall k :: |a| <= k < |s| ==> s[k] == b[k - |a|];
    assert forall k :: 0 <= k < |a| ==> s[k] == a[k];
    FindFirstUnique(s, stops, 0, |a| + j);
  }

  /** The end of the run of characters from `cs` that starts at `from`. */
  function RunOf(s: string, cs: set<char>, from: nat): (k: nat)
    requires from <= |s|
    ensures from <= k <= |s|
    ensures forall p :: from <= p < k ==> s[p] in cs
    ensures k == |s| || s[k] !in cs
    decreases |s| - from
  {
    if from == |s| || s[from] !in cs then from else RunOf(s, cs, from + 1)
  }

  /** The start of the run of characters from `cs` that ends at `to`. */
  function RunBackOf(s: string, cs: set<char>, to: nat): (k: nat)
    requires to <= |s|
    ensures k <= to
    ensures forall p :: k <= p < to ==> s[p] in cs
    ensures k == 0 || s[k - 1] !in cs
  {
    if to == 0 || s[to - 1] !in cs then to else RunBackOf(s, cs, to - 1)
  }

  /** `s` without its leading run of characters from `cs` (Python's `s.lstrip(cs)`): a suffix of
      `s` that does not start with one of them, and everything dropped is one of them. */
  function DropLeading(s: string, cs: set<char>): (r: string)
    ensures |r| <= |s| && r == s[|s| - |r|..]
    ensures forall k :: 0 <= k < |s| - |r| ==> s[k] in cs
    ensures r == [] || r[0] !in cs
  {
    s[RunOf(s, cs, 0)..]
  }

  /** `s` without its trailing run of characters from `cs` (Python's `s.rstrip(cs)`): a prefix of
      `s` that does not end with one of them, and everything dropped is one of them. */
  function DropTrailing(s: string, cs: set<char>): (r: string)
    ensures |r| <= |s| && r == s[..|r|]
    ensures forall k :: |r| <= k < |s| ==> s[k] in cs
    ensures r == [] || r[|r| - 1] !in cs
  {
    s[..RunBackOf(s, cs, |s|)]
  }

  /** The contract of DropLeading determines its result: the first character outside `cs`
      starts it. */
  lemma DropLeadingUnique(s: string, cs: set<char>, m: nat)
    requires m <= |s|
    requires forall k :: 0 <= k < m ==> s[k] in cs
    requires m == |s| || s[m] !in cs
    ensures DropLeading(s, cs) == s[m..]
  {
    assert RunOf(s, cs, 0) == m;
  }

  /** `s` with every character from `cs` deleted (Python's `s.replace(c, "")` for each `c` in
      `cs`). None of them is left, and text without any of them is unchanged. */
  function Remove(s: string, cs: set<char>): (r: string)
    ensures |r| <= |s|
    ensures NoneIn(r, cs)
    ensures NoneIn(s, cs) ==> r == s
  {
    if s == [] then []
    else if s[0] in cs then Remove(s[1..], cs)
    else
      assert NoneIn(s, cs) ==> s == [s[0]] + s[1..];
      [s[0]] + Remove(s[1..], cs)
  }

  /** A character from `cs` is deleted, not replaced: on its own it leaves nothing. With
      RemoveConcat and the unchanged clause of Remove this fixes Remove on every input. */
  lemma RemoveDeleted(c: char, cs: set<char>)
    requires c in cs
    ensures Remove([c], cs) == []
  {
    assert [c][1..] == [];
  }

  /** Deleting characters works piece by piece. */
  lemma {:induction false} RemoveConcat(a: string, b: string, cs: set<char>)
    ensures Remove(a + b, cs) == Remove(a, cs) + Remove(b, cs)
  {
    if a != [] {
      assert (a + b)[0] == a[0] && (a + b)[1..] == a[1..] + b;
      RemoveConcat(a[1..], b, cs);
    } else {
      assert a + b == b;
    }
  }

  /** Folding a piece of a string is the same as taking that piece of the folded string. */
  lemma LowerSlice(s: string, i: nat, j: nat)
    requires i <= j <= |s|
    ensures Lower(s[i..j]) == Lower(s)[i..j]
  {
  }

  /** Containment is transitive: what occurs in a piece of `s` occurs in `s`. */
  lemma ContainsInSlice(s: string, i: nat, j: nat, t: string)
    requires i <= j <= |s|
    requires Contains(s[i..j], t)
    ensures Contains(s, t)
  {
    var p :| 0 <= p <= j - i && t <= s[i..j][p..];
    assert s[i..j][p..] == s[i + p..j];
    assert t <= s[i + p..];
  }
}

/** The conventional Some/None datatype. */
module Wrappers {
  datatype Option<+T> = None | Some(value: T)
}
