/** The link scan of `find_suspicious_links`: the links `re.findall(r'http[s]?://\S+', bio)`
    returns, and the search for a suspicious marker among them. */
module LinkScan {
  import opened Text
  import opened Wrappers

  const Http: string := "http://"
  const Https: string := "https://"

  /** The fixed markers of a shortened or tracking link. */
  const Markers: seq<string> := ["bit.ly", "grabify", "shady"]

  // ---------------------------------------------------------------------------------------------
  // One match of `http[s]?://\S+`
  // ---------------------------------------------------------------------------------------------

  /** Text the pattern matches as a whole: `http://` or `https://`, at least one more character,
      and no whitespace anywhere. */
  predicate IsLinkText(l: string) {
    && ((Http <= l && |l| > |Http|) || (Https <= l && |l| > |Https|))
    && forall k :: 0 <= k < |l| ==> !IsSpace(l[k])
  }

  /** `s[i..j]` is the match the pattern makes at `i`: link text that the greedy `\S+` cannot
      extend, because whitespace or the end of the text follows it. */
  predicate IsMatch(s: string, i: nat, j: nat) {
    i <= j <= |s| && IsLinkText(s[i..j]) && (j == |s| || IsSpace(s[j]))
  }

  /** The length of the scheme prefix `http[s]?://` at `i`, or 0 when there is none. */
  function PrefixLength(s: string, i: nat): (n: nat)
    requires i <= |s|
    ensures n == 0 || n == |Http| || n == |Https|
    ensures n == |Https| ==> Https <= s[i..]
    ensures n == |Http| ==> Http <= s[i..]
    ensures n == 0 ==> !(Http <= s[i..]) && !(Https <= s[i..])
  {
    if Https <= s[i..] then |Https| else if Http <= s[i..] then |Http| else 0
  }

  /** The characters of the two scheme prefixes are not whitespace. */
  lemma PrefixesHaveNoSpace()
    ensures forall k :: 0 <= k < |Http| ==> !IsSpace(Http[k])
    ensures forall k :: 0 <= k < |Https| ==> !IsSpace(Https[k])
  {
    assert Http == ['h', 't', 't', 'p', ':', '/', '/'];
    assert Https == ['h', 't', 't', 'p', 's', ':', '/', '/'];
  }

  /** The end of the match the pattern makes at `i`, or None when it makes none there. */
  function MatchAt(s: string, i: nat): (m: Option<nat>)
    requires i <= |s|
    ensures m.Some? ==> IsMatch(s, i, m.value)
  {
    var n := PrefixLength(s, i);
    if n == 0 || i + n == |s| || IsSpace(s[i + n]) then None
    else
      PrefixesHaveNoSpace();
      // The greedy `\S+` stops at the first whitespace after the prefix, or at the end.
      var j := FindFirst(s, Whitespace, i + n);
      assert forall p :: i + n <= p < j ==> !IsSpace(s[p]);
      assert forall k :: 0 <= k < j - i ==> s[i..j][k] == s[i + k];
      assert s[i..j][..n] == s[i..][..n];
      Some(j)
  }

  /** The pattern makes no match at `i` exactly when no link text at all starts there. */
  lemma MatchAtNone(s: string, i: nat)
    requires i <= |s|
    ensures MatchAt(s, i).None? <==> forall j :: i <= j <= |s| ==> !IsLinkText(s[i..j])
  {
    if MatchAt(s, i).None? {
      forall j | i <= j <= |s| ensures !IsLinkText(s[i..j]) {
        if Http <= s[i..j] && |s[i..j]| > |Http| {
          assert Http <= s[i..];
          assert s[i + 4] == Http[4] != Https[4];
          assert s[i + |Http|] == s[i..j][|Http|];
        }
        if Https <= s[i..j] && |s[i..j]| > |Https| {
          assert Https <= s[i..];
          assert s[i + |Https|] == s[i..j][|Https|];
        }
      }
    }
  }

  /** A match at `i` is unique: its end is the one MatchAt gives. */
  lemma MatchAtOfMatch(s: string, i: nat, j: nat)
    requires IsMatch(s, i, j)
    ensures MatchAt(s, i) == Some(j)
  {
    MatchAtNone(s, i);
    var j' := MatchAt(s, i).value;
    assert forall p :: i <= p < j ==> !IsSpace(s[p]) by {
      forall p | i <= p < j ensures !IsSpace(s[p]) { assert s[p] == s[i..j][p - i]; }
    }
    assert forall p :: i <= p < j' ==> !IsSpace(s[p]) by {
      forall p | i <= p < j' ensures !IsSpace(s[p]) { assert s[p] == s[i..j'][p - i]; }
    }
  }

  // ---------------------------------------------------------------------------------------------
  // All matches, left to right: `re.findall`
  // ---------------------------------------------------------------------------------------------

  /** Where a match lies in the text: `s[start..end]`. */
  datatype Span = Span(start: nat, end: nat)

  /** The matches `re.findall` makes from position `i` on: at each position either the pattern
      matches, and the scan resumes after the match, or it does not, and the scan moves one
      character on. */
  function SpansFrom(s: string, i: nat): (r: seq<Span>)
    requires i <= |s|
    ensures forall k :: 0 <= k < |r| ==> i <= r[k].start && IsMatch(s, r[k].start, r[k].end)
    ensures forall k, l :: 0 <= k < l < |r| ==> r[k].end <= r[l].start
    decreases |s| - i
  {
    if i == |s| then []
    else
      match MatchAt(s, i)
      case Some(j) => [Span(i, j)] + SpansFrom(s, j)
      case None => SpansFrom(s, i + 1)
  }

  /** The matches of the whole text. */
  function Spans(s: string): seq<Span> {
    SpansFrom(s, 0)
  }

  /** The text of each span. */
  function Slices(s: string, spans: seq<Span>): (r: seq<string>)
    requires forall k :: 0 <= k < |spans| ==> spans[k].start <= spans[k].end <= |s|
    ensures |r| == |spans|
    ensures forall k :: 0 <= k < |r| ==> r[k] == s[spans[k].start..spans[k].end]
  {
    seq(|spans|, k requires 0 <= k < |spans| => s[spans[k].start..spans[k].end])
  }

  /** The links from position `i` on. */
  function LinksFrom(s: string, i: nat): seq<string>
    requires i <= |s|
  {
    Slices(s, SpansFrom(s, i))
  }

  /** `re.findall(r'http[s]?://\S+', s)`. Every link is a piece of the text, is link text (a
      scheme prefix, at least one more character, no whitespace) and is followed by whitespace or
      the end of the text; the links do not overlap and come in the order of the text. */
  function Links(s: string): (links: seq<string>)
    ensures |links| == |Spans(s)|
    ensures forall k :: 0 <= k < |links| ==>
      && links[k] == s[Spans(s)[k].start..Spans(s)[k].end]
      && IsLinkText(links[k])
      && (Spans(s)[k].end == |s| || IsSpace(s[Spans(s)[k].end]))
    ensures forall k, l :: 0 <= k < l < |links| ==> Spans(s)[k].end <= Spans(s)[l].start
  {
    LinksFrom(s, 0)
  }

  // ---------------------------------------------------------------------------------------------
  // What findall computes, stated without the scan
  // ---------------------------------------------------------------------------------------------

  /** The pattern matches nowhere in `[lo, hi)`: by MatchAtNone, no link text starts there. */
  ghost predicate NoMatchIn(s: string, lo: nat, hi: nat)
    requires hi <= |s|
  {
    forall p :: lo <= p < hi ==> MatchAt(s, p).None?
  }

  /** `spans` is what a leftmost, non-overlapping scan from `from` finds: the pattern matches
      nowhere before the first span, the first span is a greedy match, and the rest is such a scan
      from its end; with no span, the pattern matches nowhere from `from` on. */
  ghost predicate IsScanOf(s: string, from: nat, spans: seq<Span>)
    requires from <= |s|
    decreases |spans|
  {
    if spans == [] then NoMatchIn(s, from, |s|)
    else
      && from <= spans[0].start
      && IsMatch(s, spans[0].start, spans[0].end)
      && NoMatchIn(s, from, spans[0].start)
      && IsScanOf(s, spans[0].end, spans[1..])
  }

  /** A position where the pattern does not match can be added to the front of the first gap. */
  lemma ScanSkip(s: string, from: nat, spans: seq<Span>)
    requires from < |s|
    requires MatchAt(s, from).None?
    requires IsScanOf(s, from + 1, spans)
    ensures IsScanOf(s, from, spans)
  {
    if spans != [] {
      assert NoMatchIn(s, from + 1, spans[0].start);
      assert spans[0].start != from by { MatchAtOfMatch(s, spans[0].start, spans[0].end); }
    }
  }

  /** The scan finds exactly the leftmost non-overlapping greedy matches. */
  lemma {:induction false} SpansAreScan(s: string, from: nat)
    requires from <= |s|
    ensures IsScanOf(s, from, SpansFrom(s, from))
    decreases |s| - from
  {
    if from < |s| {
      match MatchAt(s, from)
      case Some(j) =>
        SpansAreScan(s, j);
        assert SpansFrom(s, from) == [Span(from, j)] + SpansFrom(s, j);
      case None =>
        SpansAreScan(s, from + 1);
        ScanSkip(s, from, SpansFrom(s, from + 1));
    }
  }

  /** Only one sequence of spans is a scan of the text: the one the scan computes. */
  lemma {:induction false} ScanIsSpans(s: string, from: nat, spans: seq<Span>)
    requires from <= |s|
    requires IsScanOf(s, from, spans)
    ensures spans == SpansFrom(s, from)
    decreases |s| - from
  {
    if spans != [] {
      MatchAtOfMatch(s, spans[0].start, spans[0].end);
    }
    if from < |s| {
      match MatchAt(s, from)
      case Some(j) =>
        assert spans != [] && spans[0].start == from;
        ScanIsSpans(s, j, spans[1..]);
        assert spans == [Span(from, j)] + spans[1..];
      case None =>
        ScanIsSpans(s, from + 1, spans);
    }
  }

  /** With no match anywhere, findall returns no link. */
  lemma NoMatchNoLinks(s: string)
    requires NoMatchIn(s, 0, |s|)
    ensures Links(s) == []
  {
    ScanIsSpans(s, 0, []);
  }

  // ---------------------------------------------------------------------------------------------
  // The marker search
  // ---------------------------------------------------------------------------------------------

  /** `any(bad in link.lower() for bad in ['bit.ly', 'grabify', 'shady'])`. */
  predicate HasMarker(link: string) {
    exists m :: m in Markers && Contains(Lower(link), m)
  }

  /** Some link of `links` carries a marker. */
  predicate AnyMarked(links: seq<string>) {
    exists k :: 0 <= k < |links| && HasMarker(links[k])
  }

  /** Some link findall returns from the bio carries a marker. */
  predicate Suspicious(bio: string) {
    AnyMarked(Links(bio))
  }

  /** The loop of `find_suspicious_links` over the links: answers true at the first link that
      carries a marker, false when none does. The early exit gives the answer of checking every
      link. */
  method FindMarkedLink(links: seq<string>) returns (found: bool)
    ensures found <==> AnyMarked(links)
  {
    for k := 0 to |links|
      invariant forall l :: 0 <= l < k ==> !HasMarker(links[l])
    {
      if HasMarker(links[k]) {
        return true;
      }
    }
    return false;
  }

  /** `find_suspicious_links`: the links findall returns from the bio, then the marker search. */
  method FindSuspiciousLinks(bio: string) returns (found: bool)
    ensures found <==> Suspicious(bio)
  {
    found := FindMarkedLink(Links(bio));
  }

  /** A suspicious bio holds a greedy match whose text carries a marker. */
  lemma SuspiciousHasMarkedMatch(bio: string)
    requires Suspicious(bio)
    ensures exists i: nat, j: nat :: IsMatch(bio, i, j) && HasMarker(bio[i..j])
  {
    var k :| 0 <= k < |Links(bio)| && HasMarker(Links(bio)[k]);
    var sp := Spans(bio)[k];
    assert IsMatch(bio, sp.start, sp.end) && HasMarker(bio[sp.start..sp.end]);
  }

  /** A marker carried by a piece of the text occurs in the lower-cased text. */
  lemma MarkerInSlice(s: string, i: nat, j: nat)
    requires i <= j <= |s| && HasMarker(s[i..j])
    ensures exists m :: m in Markers && Contains(Lower(s), m)
  {
    var m :| m in Markers && Contains(Lower(s[i..j]), m);
    LowerSlice(s, i, j);
    ContainsInSlice(Lower(s), i, j, m);
  }

  /** A bio is never suspicious when no marker occurs in its lower-cased text at all, wherever
      links are. */
  lemma NoMarkerNotSuspicious(bio: string)
    requires forall m :: m in Markers ==> !Contains(Lower(bio), m)
    ensures !Suspicious(bio)
  {
    if Suspicious(bio) {
      SuspiciousHasMarkedMatch(bio);
      var i: nat, j: nat :| IsMatch(bio, i, j) && HasMarker(bio[i..j]);
      MarkerInSlice(bio, i, j);
    }
  }

  /** There is no match at `p` unless `http://` or `https://` starts there and a character other
      than whitespace follows it. */
  lemma MatchNeedsScheme(s: string, p: nat)
    requires p <= |s|
    requires !(Http <= s[p..] && p + |Http| < |s| && !IsSpace(s[p + |Http|]))
    requires !(Https <= s[p..] && p + |Https| < |s| && !IsSpace(s[p + |Https|]))
    ensures MatchAt(s, p).None?
  {
    if Https <= s[p..] {
      assert s[p + 4] == Https[4] != Http[4];
    }
  }

  /** A bio in which neither `http://` nor `https://` is followed by a character other than
      whitespace, the empty bio among them, has no links and is not suspicious. This is the
      answer for the empty bio a failed fetch leaves. */
  lemma NoSchemeNotSuspicious(bio: string)
    requires forall p :: 0 <= p < |bio| ==>
      && !(Http <= bio[p..] && p + |Http| < |bio| && !IsSpace(bio[p + |Http|]))
      && !(Https <= bio[p..] && p + |Https| < |bio| && !IsSpace(bio[p + |Https|]))
    ensures Links(bio) == []
    ensures !Suspicious(bio)
  {
    forall p | 0 <= p < |bio| ensures MatchAt(bio, p).None? {
      MatchNeedsScheme(bio, p);
    }
    NoMatchNoLinks(bio);
  }

  /** The empty bio is not suspicious. */
  lemma EmptyBioNotSuspicious()
    ensures Links("") == []
    ensures !Suspicious("")
  {
    NoSchemeNotSuspicious("");
  }

  /** The pattern does not match at a position whose character is not `h`. */
  lemma NoMatchWithoutH(s: string, lo: nat, hi: nat)
    requires lo <= hi <= |s|
    requires forall p :: lo <= p < hi ==> s[p] != 'h'
    ensures NoMatchIn(s, lo, hi)
  {
    forall p | lo <= p < hi ensures MatchAt(s, p).None? {
      assert s[p] != Http[0] && s[p] != Https[0];
      assert !(Http <= s[p..]) by { assert s[p..][0] == s[p]; }
      assert !(Https <= s[p..]) by { assert s[p..][0] == s[p]; }
    }
  }

  /** The text from `i` to the end is the one link findall returns from `from` on, when no match
      starts before it. */
  lemma LastLink(s: string, from: nat, i: nat)
    requires from <= i <= |s|
    requires NoMatchIn(s, from, i)
    requires IsLinkText(s[i..])
    ensures LinksFrom(s, from) == [s[i..]]
  {
    assert IsScanOf(s, from, [Span(i, |s|)]) by {
      assert s[i..|s|] == s[i..];
      assert IsScanOf(s, |s|, []);
    }
    ScanIsSpans(s, from, [Span(i, |s|)]);
    assert s[i..|s|] == s[i..];
  }

  /** After text holding no `h`, link text followed by nothing is the only link, and the bio is
      suspicious exactly when that link carries a marker. */
  lemma SoleLink(t: string, link: string)
    requires forall p :: 0 <= p < |t| ==> t[p] != 'h'
    requires IsLinkText(link)
    ensures Links(t + link) == [link]
    ensures Suspicious(t + link) <==> HasMarker(link)
  {
    var s := t + link;
    assert forall p :: 0 <= p < |t| ==> s[p] == t[p];
    NoMatchWithoutH(s, 0, |t|);
    assert s[|t|..] == link;
    LastLink(s, 0, |t|);
    assert Links(s)[0] == link;
    if HasMarker(link) {
      assert HasMarker(Links(s)[0]);
    }
  }

  /** After text holding no `h`, two pieces of link text separated by one whitespace character
      are the two links, in their order in the text. */
  lemma LinkPair(t: string, a: string, sep: char, b: string)
    requires forall p :: 0 <= p < |t| ==> t[p] != 'h'
    requires IsLinkText(a) && IsSpace(sep) && IsLinkText(b)
    ensures Links(t + a + [sep] + b) == [a, b]
  {
    var s := t + a + [sep] + b;
    var i, j := |t|, |t| + |a|;
    assert forall p :: 0 <= p < |t| ==> s[p] == t[p];
    assert s[i..j] == a && s[j] == sep && s[j + 1..] == b && s[j + 1..|s|] == b;
    NoMatchWithoutH(s, 0, i);
    NoMatchWithoutH(s, j, j + 1);
    var spans := [Span(i, j), Span(j + 1, |s|)];
    assert IsScanOf(s, 0, spans) by {
      assert IsScanOf(s, |s|, []);
      assert IsScanOf(s, j, spans[1..]);
    }
    ScanIsSpans(s, 0, spans);
    var ls := Slices(s, spans);
    assert Links(s) == ls;
    assert |ls| == 2 && ls[0] == a && ls[1] == b;
  }

  /** No marker fits into a link none of whose lower-cased characters is a marker's first one. */
  lemma NoMarkerWithoutInitial(link: string)
    requires forall k :: 0 <= k < |link| ==> LowerChar(link[k]) != 'b' && LowerChar(link[k]) != 'g' && LowerChar(link[k]) != 's'
    ensures !HasMarker(link)
  {
    forall m, i | m in Markers && 0 <= i <= |link| ensures !(m <= Lower(link)[i..]) {
      if i < |link| {
        assert Lower(link)[i..][0] == LowerChar(link[i]);
      }
    }
  }

  /** Printable ASCII text after a scheme prefix is link text. */
  lemma PrintableLinkText(l: string)
    requires (Http <= l && |l| > |Http|) || (Https <= l && |l| > |Https|)
    requires forall k :: 0 <= k < |l| ==> '!' <= l[k] <= '~'
    ensures IsLinkText(l)
  {
  }
}
