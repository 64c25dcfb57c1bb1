/** Worked examples of the link scan and the marker search.

    Each example takes its bio or link as a parameter that the precondition fixes
    (`requires link == "..."`) rather than writing the literal into the statement. The verifier
    then reaches the value through the general lemmas instead of evaluating the scan on a constant
    character by character, which keeps each proof small. */
module LinkExamples {
  import opened Text
  import opened LinkScan

  /** `m` occurs at `i` in the lower-cased `link`: the marker check succeeds. */
  lemma MarkerAt(link: string, m: string, i: nat)
    requires m in Markers && i + |m| <= |link|
    requires forall k :: 0 <= k < |m| ==> LowerChar(link[i + k]) == m[k]
    ensures HasMarker(link)
  {
    assert m <= Lower(link)[i..];
  }

  /** A shortened link after some words makes the bio suspicious. */
  lemma ShortenedLinkIsSuspicious(words: string, link: string)
    requires words == "Sale at " && link == "http://bit.ly/xyz"
    ensures Links(words + link) == [link]
    ensures Suspicious(words + link)
  {
    MarkerAt(link, "bit.ly", 7);
    PrintableLinkText(link);
    SoleLink(words, link);
  }

  /** The marker check ignores case: an upper-case shortener domain still counts. */
  lemma UpperCaseMarkerIsSuspicious(link: string)
    requires link == "http://BIT.LY/x"
    ensures Links(link) == [link]
    ensures Suspicious(link)
  {
    MarkerAt(link, "bit.ly", 7);
    PrintableLinkText(link);
    SoleLink("", link);
    assert "" + link == link;
  }

  /** A marker outside every link does not count: the one link here carries none. */
  lemma BareMarkerIsNotSuspicious(words: string, link: string)
    requires words == "see bit.ly at " && link == "http://example.com"
    ensures Links(words + link) == [link]
    ensures !Suspicious(words + link)
  {
    NoMarkerWithoutInitial(link);
    PrintableLinkText(link);
    SoleLink(words, link);
  }

  /** Markers in a bio with no link at all do not count either. */
  lemma MarkersWithoutLinkAreNotSuspicious(bio: string)
    requires bio == "visit bit.ly or grabify"
    ensures Links(bio) == []
    ensures !Suspicious(bio)
  {
    NoMatchWithoutH(bio, 0, |bio|);
    NoMatchNoLinks(bio);
  }

  /** The scheme alone, followed by whitespace, is not a link: `\S+` needs one character. */
  lemma BareSchemeIsNoLink(bio: string)
    requires bio == "http:// x"
    ensures Links(bio) == []
  {
    assert bio[7] == ' ' && bio[4] != Https[4];
    MatchNeedsScheme(bio, 0);
    NoMatchWithoutH(bio, 1, |bio|);
    NoMatchNoLinks(bio);
  }

  /** The tracking link of the next example carries the `grabify` marker. */
  lemma TrackingLinkIsMarked(a: string)
    requires a == "https://grabify.link/q"
    ensures HasMarker(a)
  {
    MarkerAt(a, "grabify", 8);
  }

  /** Two links come back in the order of the text, the first one marked. */
  lemma TwoLinksInOrder(words: string, a: string, b: string)
    requires words == "Go " && a == "https://grabify.link/q" && b == "http://example.org"
    ensures Links(words + a + [' '] + b) == [a, b]
    ensures Suspicious(words + a + [' '] + b)
  {
    var bio := words + a + [' '] + b;
    PrintableLinkText(a);
    PrintableLinkText(b);
    LinkPair(words, a, ' ', b);
    TrackingLinkIsMarked(a);
    assert HasMarker(Links(bio)[0]);
  }
}
