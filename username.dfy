/** Handle extraction: the profile URL's path, stripped of `/` at both ends, cut at the first `/`.

    The worked examples at the end take their URL as a parameter that the precondition fixes
    (`requires url == "..."`) rather than writing the literal into the statement. The verifier
    then reaches the value through the general lemmas instead of evaluating the functions on a
    constant character by character, which keeps each proof small. */
module Username {
  import opened Text

  // ---------------------------------------------------------------------------------------------
  // The path component of a URL, as `urlsplit` of CPython 3.12 computes it (its scheme and
  // authority rules follow section 3 of RFC 3986): the URL is first cleaned, then an optional
  // scheme ends at the first `:`, an optional `//` authority runs to the first of `/`, `?`, `#`,
  // and the path runs from there to the first `?` or `#`.
  // ---------------------------------------------------------------------------------------------

  /** The characters cleaning strips from the front of a URL: the C0 controls and the space. */
  const ControlOrSpace: set<char> := set c: char | c <= ' '

  /** The characters cleaning deletes wherever they occur: tab, line feed, carriage return. */
  const Unsafe: set<char> := {'\t', '\n', '\r'}

  /** The URL `urlsplit` works on: leading controls and spaces stripped (trailing ones are kept),
      then every tab, line feed and carriage return deleted. */
  function Cleaned(url: string): (clean: string)
    ensures NoneIn(clean, Unsafe)
    ensures clean == [] || clean[0] !in ControlOrSpace
  {
    var d := DropLeading(url, ControlOrSpace);
    if d == [] then []
    else
      assert d[0] !in Unsafe by { assert !(d[0] <= ' '); }
      assert Remove(d, Unsafe) == [d[0]] + Remove(d[1..], Unsafe);
      Remove(d, Unsafe)
  }

  predicate IsAsciiLetter(c: char) {
    'a' <= c <= 'z' || 'A' <= c <= 'Z'
  }

  predicate IsSchemeChar(c: char) {
    IsAsciiLetter(c) || '0' <= c <= '9' || c == '+' || c == '-' || c == '.'
  }

  /** A scheme name: an ASCII letter, then letters, digits, `+`, `-` and `.`. */
  predicate IsScheme(t: string) {
    t != [] && IsAsciiLetter(t[0]) && forall k :: 0 <= k < |t| ==> IsSchemeChar(t[k])
  }

  /** Where the text after the scheme starts: just past the first `:` when everything before
      that colon is a scheme, otherwise 0 (the URL has no scheme). */
  function SchemeEnd(url: string): (i: nat)
    ensures i <= |url|
    ensures i > 0 ==> url[i - 1] == ':' && IsScheme(url[..i - 1])
  {
    var c := FindFirst(url, {':'}, 0);
    if c < |url| && IsScheme(url[..c]) then c + 1 else 0
  }

  /** Whether `//`, which opens an authority, follows the scheme. */
  predicate HasAuthority(url: string) {
    var s := SchemeEnd(url);
    s + 2 <= |url| && url[s] == '/' && url[s + 1] == '/'
  }

  /** Where the path starts: where the scheme ends when no `//` follows it; otherwise where the
      authority after `//` ends, at the first `/`, `?` or `#` or at the end of the text. */
  function PathStart(url: string): (i: nat)
    ensures SchemeEnd(url) <= i <= |url|
    ensures !HasAuthority(url) ==> i == SchemeEnd(url)
    ensures HasAuthority(url) ==>
      && SchemeEnd(url) + 2 <= i
      && (forall p :: SchemeEnd(url) + 2 <= p < i ==> url[p] !in {'/', '?', '#'})
      && (i == |url| || url[i] in {'/', '?', '#'})
  {
    var s := SchemeEnd(url);
    if s + 2 <= |url| && url[s] == '/' && url[s + 1] == '/'
    then FindFirst(url, {'/', '?', '#'}, s + 2)
    else s
  }

  /** The path of cleaned text: from where it starts up to the first `?` (query) or `#`
      (fragment). */
  function SplitPath(clean: string): (path: string)
    ensures '?' !in path && '#' !in path
  {
    var i := PathStart(clean);
    var j := FindFirst(clean, {'?', '#'}, i);
    assert forall k :: 0 <= k < j - i ==> clean[i..j][k] == clean[i + k];
    clean[i..j]
  }

  /** The path component of `url`. */
  function UrlPath(url: string): (path: string)
    ensures '?' !in path && '#' !in path
  {
    SplitPath(Cleaned(url))
  }

  // ---------------------------------------------------------------------------------------------
  // `strip('/')` and `split('/')[0]`
  // ---------------------------------------------------------------------------------------------

  const Slash: set<char> := {'/'}

  /** `r` sits at `i` in `s`, and everything before and after it is `/`. */
  predicate SlashesAround(s: string, i: nat, r: string) {
    && i + |r| <= |s| && r == s[i..i + |r|]
    && (forall k :: 0 <= k < i ==> s[k] == '/')
    && (forall k :: i + |r| <= k < |s| ==> s[k] == '/')
  }

  /** Python's `s.strip('/')`: the piece of `s` left when the runs of `/` at both ends are
      dropped. Only `/` is dropped, on either side, and the piece neither starts nor ends with
      `/`. */
  function StripSlashes(s: string): (r: string)
    ensures exists i: nat :: SlashesAround(s, i, r)
    ensures r == [] || (r[0] != '/' && r[|r| - 1] != '/')
  {
    var d := DropLeading(s, Slash);
    var r := DropTrailing(d, Slash);
    var i := |s| - |d|;
    assert r != [] ==> r[0] == d[0];
    assert SlashesAround(s, i, r) by {
      assert r == s[i..i + |r|];
      assert forall k :: i + |r| <= k < |s| ==> s[k] == d[k - i];
    }
    r
  }

  /** The contract of StripSlashes determines its result: a piece of `s` with only `/` around it
      that neither starts nor ends with `/` is `s.strip('/')`. */
  lemma StripSlashesUnique(s: string, i: nat, r: string)
    requires SlashesAround(s, i, r)
    requires r == [] || (r[0] != '/' && r[|r| - 1] != '/')
    ensures StripSlashes(s) == r
  {
    var t := StripSlashes(s);
    var j: nat :| SlashesAround(s, j, t);
    if r != [] && t != [] {
      assert s[i] == r[0] && s[j] == t[0];
      assert s[i + |r| - 1] == r[|r| - 1] && s[j + |t| - 1] == t[|t| - 1];
    }
  }

  /** Python's `s.split('/')[0]`: the longest prefix of `s` without a `/`. */
  function FirstSegment(s: string): (r: string)
    ensures r <= s
    ensures '/' !in r
    ensures r == s || s[|r|] == '/'
  {
    if s == [] || s[0] == '/' then [] else [s[0]] + FirstSegment(s[1..])
  }

  /** The handle of a profile path (`extract_username` after `urlparse`). The result never holds a
      `/`, is a prefix of the stripped path, and is empty exactly when the stripped path is. */
  function UsernameOfPath(path: string): (name: string)
    ensures '/' !in name
    ensures name <= StripSlashes(path)
    ensures name == [] <==> StripSlashes(path) == []
  {
    var stripped := StripSlashes(path);
    assert stripped != [] ==> stripped[0] != '/' by {
      if stripped != [] {
        var d := DropLeading(path, Slash);
        assert stripped == d[..|stripped|];
      }
    }
    FirstSegment(stripped)
  }

  /** `extract_username(url)`: the handle of the URL's path. */
  function ExtractUsername(url: string): (name: string)
    ensures '/' !in name && name <= StripSlashes(UrlPath(url))
  {
    UsernameOfPath(UrlPath(url))
  }

  // ---------------------------------------------------------------------------------------------
  // Lemmas
  // ---------------------------------------------------------------------------------------------

  /** The contract of FirstSegment determines its result. */
  lemma FirstSegmentUnique(s: string, r: string)
    requires r <= s && '/' !in r && (r == s || s[|r|] == '/')
    ensures FirstSegment(s) == r
  {
  }

  /** The first segment ends no later than where a run of `/` reaching the end begins. */
  lemma {:induction false} FirstSegmentBound(s: string, n: nat)
    requires n <= |s|
    requires forall k :: n <= k < |s| ==> s[k] == '/'
    ensures |FirstSegment(s)| <= n
  {
    if s != [] && s[0] != '/' && n > 0 {
      FirstSegmentBound(s[1..], n - 1);
    }
  }

  /** Dropping the trailing slashes never changes the first segment, because the segment ends at
      the first `/` anyway. */
  lemma FirstSegmentIgnoresTrailing(d: string)
    ensures FirstSegment(DropTrailing(d, Slash)) == FirstSegment(d)
  {
    var t := DropTrailing(d, Slash);
    var f := FirstSegment(d);
    FirstSegmentBound(d, |t|);
    assert f <= t;
    assert f == t || t[|f|] == '/' by {
      if f != t {
        assert f != d;
        assert t[|f|] == d[|f|];
      }
    }
    FirstSegmentUnique(t, f);
  }

  /** The handle is the first segment after the leading slashes: trailing slashes play no part. */
  lemma UsernameIsFirstSegmentAfterLeadingSlashes(path: string)
    ensures UsernameOfPath(path) == FirstSegment(DropLeading(path, Slash))
  {
    FirstSegmentIgnoresTrailing(DropLeading(path, Slash));
  }

  /** A path of some slashes, then a non-empty name without `/`, then nothing or more segments
      has that name as its handle. */
  lemma UsernameOfSegmentedPath(lead: string, name: string, rest: string)
    requires forall k :: 0 <= k < |lead| ==> lead[k] == '/'
    requires name != [] && '/' !in name
    requires rest == [] || rest[0] == '/'
    ensures UsernameOfPath(lead + name + rest) == name
  {
    var path := lead + name + rest;
    assert path[|lead|] == name[0];
    assert name[0] in name;
    DropLeadingUnique(path, Slash, |lead|);
    assert path[|lead|..] == name + rest;
    UsernameIsFirstSegmentAfterLeadingSlashes(path);
    FirstSegmentUnique(name + rest, name);
  }

  /** Appending a `/` does not change the first segment. */
  lemma FirstSegmentAppendSlash(d: string)
    ensures FirstSegment(d + "/") == FirstSegment(d)
  {
    var f := FirstSegment(d);
    assert (d + "/")[..|d|] == d;
    assert (d + "/")[|f|] == '/' by {
      if f != d { assert (d + "/")[|f|] == d[|f|]; }
    }
    FirstSegmentUnique(d + "/", f);
  }

  /** Appending a `/` to a path does not change the first segment after its leading slashes. */
  lemma FirstSegmentAfterLeadingAppendSlash(path: string)
    ensures FirstSegment(DropLeading(path + "/", Slash)) == FirstSegment(DropLeading(path, Slash))
  {
    var d := DropLeading(path, Slash);
    var p := path + "/";
    var m := |path| - |d|;
    assert forall k :: 0 <= k < m ==> p[k] == path[k];
    if d == [] {
      assert forall k :: 0 <= k < |p| ==> p[k] in Slash;
      DropLeadingUnique(p, Slash, |p|);
    } else {
      assert p[m] == d[0] && d[0] !in Slash;
      DropLeadingUnique(p, Slash, m);
      assert p[m..] == d + "/";
      FirstSegmentAppendSlash(d);
    }
  }

  /** A trailing slash does not change the handle: `/bob/` and `/bob` both give `bob`. */
  lemma UsernameIgnoresTrailingSlash(path: string)
    ensures UsernameOfPath(path + "/") == UsernameOfPath(path)
  {
    FirstSegmentAfterLeadingAppendSlash(path);
    UsernameIsFirstSegmentAfterLeadingSlashes(path);
    UsernameIsFirstSegmentAfterLeadingSlashes(path + "/");
  }

  /** A path made only of slashes (`""`, `"/"`, `"///"`) gives the empty handle, and no other
      path does. */
  lemma EmptyUsernameIffOnlySlashes(path: string)
    ensures UsernameOfPath(path) == [] <==> forall k :: 0 <= k < |path| ==> path[k] == '/'
  {
    UsernameIsFirstSegmentAfterLeadingSlashes(path);
    var d := DropLeading(path, Slash);
    if d != [] {
      assert path[|path| - |d|] == d[0];
    } else {
      assert forall k :: 0 <= k < |path| ==> path[k] == '/';
    }
  }

  /** A scheme followed by `:` ends just past that colon. */
  lemma SchemeEndOf(url: string, n: nat)
    requires n < |url| && url[n] == ':' && IsScheme(url[..n])
    ensures SchemeEnd(url) == n + 1
  {
    assert forall k :: 0 <= k < n ==> url[k] !in {':'} by {
      forall k | 0 <= k < n ensures url[k] !in {':'} { assert url[..n][k] == url[k]; }
    }
    FindFirstUnique(url, {':'}, 0, n);
  }

  /** After a scheme, `://` and a host without `/`, `?` or `#`, the path starts where the host
      ends. */
  lemma PathStartOf(url: string, n: nat, h: nat)
    requires n + 3 <= h <= |url|
    requires url[n] == ':' && IsScheme(url[..n])
    requires url[n + 1] == '/' && url[n + 2] == '/'
    requires forall k :: n + 3 <= k < h ==> url[k] !in {'/', '?', '#'}
    requires h == |url| || url[h] in {'/', '?', '#'}
    ensures PathStart(url) == h
  {
    SchemeEndOf(url, n);
    FindFirstUnique(url, {'/', '?', '#'}, n + 3, h);
  }

  /** In `scheme://host` followed by `rest`, the path starts where `rest` does. */
  lemma PathStartOfHierarchicalUrl(scheme: string, host: string, rest: string)
    requires IsScheme(scheme)
    requires NoneIn(host, {'/', '?', '#'})
    requires rest == [] || rest[0] in {'/', '?', '#'}
    ensures var url, h := scheme + "://" + host + rest, |scheme| + 3 + |host|;
      h <= |url| && url[h..] == rest && PathStart(url) == h
  {
    var url, n, h := scheme + "://" + host + rest, |scheme|, |scheme| + 3 + |host|;
    assert forall k :: n + 3 <= k < h ==> url[k] == host[k - n - 3];
    assert url[..n] == scheme;
    assert url[h..] == rest;
    PathStartOf(url, n, h);
  }

  /** The path is the text from where it starts, cut at its first `?` or `#`. */
  lemma SplitPathFrom(clean: string)
    ensures var t := clean[PathStart(clean)..]; SplitPath(clean) == t[..FindFirst(t, {'?', '#'}, 0)]
  {
    var i := PathStart(clean);
    var j := FindFirst(clean, {'?', '#'}, i);
    FindFirstFrom(clean, {'?', '#'}, i);
    assert clean[i..j] == clean[i..][..j - i];
  }

  /** The path of cleaned text `scheme://host...` is what follows the host, up to the query or
      the fragment. */
  lemma SplitPathOfHierarchicalUrl(scheme: string, host: string, rest: string)
    requires IsScheme(scheme)
    requires NoneIn(host, {'/', '?', '#'})
    requires rest == [] || rest[0] in {'/', '?', '#'}
    ensures SplitPath(scheme + "://" + host + rest) == rest[..FindFirst(rest, {'?', '#'}, 0)]
  {
    PathStartOfHierarchicalUrl(scheme, host, rest);
    SplitPathFrom(scheme + "://" + host + rest);
  }

  /** Cleaning leaves alone text that does not start with a control character or a space and
      holds no tab, line feed or carriage return. */
  lemma CleanedUnchanged(url: string)
    requires url == [] || url[0] !in ControlOrSpace
    requires NoneIn(url, Unsafe)
    ensures Cleaned(url) == url
  {
    DropLeadingUnique(url, ControlOrSpace, 0);
  }

  /** Cleaning drops a leading run of controls and spaces and deletes the tabs, line feeds and
      carriage returns from the rest, keeping every other character in order. */
  lemma CleanedOf(lead: string, rest: string)
    requires forall k :: 0 <= k < |lead| ==> lead[k] in ControlOrSpace
    requires rest == [] || rest[0] !in ControlOrSpace
    ensures Cleaned(lead + rest) == Remove(rest, Unsafe)
  {
    var url := lead + rest;
    assert forall k :: 0 <= k < |lead| ==> url[k] == lead[k];
    assert url[|lead|..] == rest;
    DropLeadingUnique(url, ControlOrSpace, |lead|);
  }

  /** Cleaning twice is cleaning once. */
  lemma CleanedIdempotent(url: string)
    ensures Cleaned(Cleaned(url)) == Cleaned(url)
  {
    CleanedUnchanged(Cleaned(url));
  }

  /** A URL and its cleaned form have the same handle: the leading controls and spaces and every
      tab, line feed and carriage return play no part in it. */
  lemma UsernameOfCleaned(url: string)
    ensures ExtractUsername(Cleaned(url)) == ExtractUsername(url)
  {
    CleanedIdempotent(url);
  }

  /** A URL `scheme://host...` without tabs and line breaks is left alone by cleaning. */
  lemma CleanedHierarchicalUrl(scheme: string, host: string, rest: string)
    requires IsScheme(scheme)
    requires NoneIn(host, Unsafe) && NoneIn(rest, Unsafe)
    ensures Cleaned(scheme + "://" + host + rest) == scheme + "://" + host + rest
  {
    assert NoneIn(scheme, Unsafe) by {
      forall k | 0 <= k < |scheme| ensures scheme[k] !in Unsafe { assert IsSchemeChar(scheme[k]); }
    }
    NoneInConcat(scheme, "://", Unsafe);
    NoneInConcat(scheme + "://", host, Unsafe);
    NoneInConcat(scheme + "://" + host, rest, Unsafe);
    assert (scheme + "://" + host + rest)[0] == scheme[0];
    CleanedUnchanged(scheme + "://" + host + rest);
  }

  /** The path of a URL `scheme://host...` free of tabs and line breaks is what follows the
      host, up to the query or the fragment. */
  lemma UrlPathOfHierarchicalUrl(scheme: string, host: string, rest: string)
    requires IsScheme(scheme)
    requires NoneIn(host, {'/', '?', '#'}) && NoneIn(host, Unsafe)
    requires NoneIn(rest, Unsafe)
    requires rest == [] || rest[0] in {'/', '?', '#'}
    ensures UrlPath(scheme + "://" + host + rest) == rest[..FindFirst(rest, {'?', '#'}, 0)]
  {
    CleanedHierarchicalUrl(scheme, host, rest);
    SplitPathOfHierarchicalUrl(scheme, host, rest);
  }

  /** Cutting at the first stop character passes over a leading piece that holds none. */
  lemma CutAfter(a: string, b: string, stops: set<char>)
    requires NoneIn(a, stops)
    ensures (a + b)[..FindFirst(a + b, stops, 0)] == a + b[..FindFirst(b, stops, 0)]
  {
    FindFirstAfter(a, b, stops);
  }

  /** A path `/name...` is cut at the query or the fragment after the name. */
  lemma CutProfilePath(name: string, tail: string)
    requires NoneIn(name, {'/', '?', '#'})
    ensures ("/" + name + tail)[..FindFirst("/" + name + tail, {'?', '#'}, 0)]
         == "/" + name + tail[..FindFirst(tail, {'?', '#'}, 0)]
  {
    var lead := "/" + name;
    forall k | 0 <= k < |lead| ensures lead[k] !in {'?', '#'} {
      if k > 0 { assert lead[k] == name[k - 1]; }
    }
    CutAfter(lead, tail, {'?', '#'});
  }

  /** For a URL `scheme://host/name...` free of tabs and line breaks, the handle is `name`
      whatever the scheme, the host, any further segments, the query, the fragment or a trailing
      slash. A name holding `;` is the exception in Python, where `urlparse` splits `;params` off
      the last path segment; UrlPath does not model that split. */
  lemma UsernameOfProfileUrl(scheme: string, host: string, name: string, tail: string)
    requires IsScheme(scheme)
    requires NoneIn(host, {'/', '?', '#'}) && NoneIn(host, Unsafe)
    requires name != [] && NoneIn(name, {'/', '?', '#'}) && NoneIn(name, Unsafe)
    requires NoneIn(tail, Unsafe) && (tail == [] || tail[0] in {'/', '?', '#'})
    ensures ExtractUsername(scheme + "://" + host + ("/" + name + tail)) == name
  {
    var rest := "/" + name + tail;
    var c := FindFirst(tail, {'?', '#'}, 0);
    assert NoneIn(rest, Unsafe) by {
      NoneInConcat("/", name, Unsafe);
      NoneInConcat("/" + name, tail, Unsafe);
    }
    UrlPathOfHierarchicalUrl(scheme, host, rest);
    CutProfilePath(name, tail);
    assert '/' !in name by {
      forall k | 0 <= k < |name| ensures name[k] != '/' { }
    }
    UsernameOfSegmentedPath("/", name, tail[..c]);
  }

  /** A URL naming only a host, `scheme://host` or `scheme://host/`, has the empty handle. */
  lemma UsernameOfHostOnlyUrl(scheme: string, host: string, slash: string)
    requires IsScheme(scheme)
    requires NoneIn(host, {'/', '?', '#'}) && NoneIn(host, Unsafe)
    requires slash == "" || slash == "/"
    ensures ExtractUsername(scheme + "://" + host + slash) == ""
  {
    UrlPathOfHierarchicalUrl(scheme, host, slash);
    EmptyUsernameIffOnlySlashes(slash);
  }

  // ---------------------------------------------------------------------------------------------
  // Worked examples
  // ---------------------------------------------------------------------------------------------

  /** The scheme and host of the profile site are well formed. */
  lemma InstagramSite(scheme: string, host: string)
    requires scheme == "https" && host == "instagram.com"
    ensures IsScheme(scheme) && NoneIn(host, {'/', '?', '#'}) && NoneIn(host, Unsafe)
  {
  }

  /** On the profile site, `https://instagram.com/name...` has the handle `name` (with the same
      `;params` exception as UsernameOfProfileUrl). */
  lemma UsernameOfInstagramUrl(name: string, tail: string)
    requires name != [] && NoneIn(name, {'/', '?', '#'}) && NoneIn(name, Unsafe)
    requires NoneIn(tail, Unsafe) && (tail == [] || tail[0] in {'/', '?', '#'})
    ensures ExtractUsername("https://instagram.com" + ("/" + name + tail)) == name
  {
    assert "https://instagram.com" == "https" + "://" + "instagram.com";
    InstagramSite("https", "instagram.com");
    UsernameOfProfileUrl("https", "instagram.com", name, tail);
  }

  /** `https://instagram.com/alice` has the handle `alice`. */
  lemma UsernameExampleAlice(url: string)
    requires url == "https://instagram.com/alice"
    ensures ExtractUsername(url) == "alice"
  {
    assert url == "https://instagram.com" + ("/" + "alice" + "");
    UsernameOfInstagramUrl("alice", "");
  }

  /** A trailing slash: `https://instagram.com/bob/` has the handle `bob`. */
  lemma UsernameExampleBob(url: string)
    requires url == "https://instagram.com/bob/"
    ensures ExtractUsername(url) == "bob"
  {
    assert url == "https://instagram.com" + ("/" + "bob" + "/");
    UsernameOfInstagramUrl("bob", "/");
  }

  /** A query: `https://instagram.com/carol?hl=en` has the handle `carol`. */
  lemma UsernameExampleCarol(url: string)
    requires url == "https://instagram.com/carol?hl=en"
    ensures ExtractUsername(url) == "carol"
  {
    assert url == "https://instagram.com" + ("/" + "carol" + "?hl=en");
    UsernameOfInstagramUrl("carol", "?hl=en");
  }

  /** Deleting tabs, line feeds and carriage returns turns `https://instagram.com/al<TAB>ice`
      into `https://instagram.com/alice`. */
  lemma RemoveExampleTab(url: string)
    requires url == "https://instagram.com/al\tice"
    ensures Remove(url, Unsafe) == "https://instagram.com/alice"
  {
    var front, back := "https://instagram.com/al", "ice";
    assert front + back == "https://instagram.com/alice";
    assert NoneIn(front, Unsafe) && NoneIn(back, Unsafe);
    assert Remove("\t", Unsafe) == [];
    assert url == front + ("\t" + back);
    RemoveConcat(front, "\t" + back, Unsafe);
    RemoveConcat("\t", back, Unsafe);
  }

  /** Cleaning deletes the tab from `https://instagram.com/al<TAB>ice`. */
  lemma CleanedExampleTab(url: string)
    requires url == "https://instagram.com/al\tice"
    ensures Cleaned(url) == "https://instagram.com/alice"
  {
    assert url[0] == 'h';
    DropLeadingUnique(url, ControlOrSpace, 0);
    RemoveExampleTab(url);
  }

  /** A tab inside the name is deleted before the URL is split: `https://instagram.com/al<TAB>ice`
      has the handle `alice`. */
  lemma UsernameExampleTab(url: string)
    requires url == "https://instagram.com/al\tice"
    ensures ExtractUsername(url) == "alice"
  {
    CleanedExampleTab(url);
    UsernameOfCleaned(url);
    UsernameExampleAlice(Cleaned(url));
  }

  /** The empty URL has no path segment: its handle is empty. */
  lemma UsernameExampleEmpty(url: string)
    requires url == ""
    ensures ExtractUsername(url) == ""
  {
    EmptyUsernameIffOnlySlashes("");
  }

  /** A bare host has no path segment either: `https://instagram.com/` gives the empty handle. */
  lemma UsernameExampleBareHost(url: string)
    requires url == "https://instagram.com/"
    ensures ExtractUsername(url) == ""
  {
    assert url == "https" + "://" + "instagram.com" + "/";
    InstagramSite("https", "instagram.com");
    UsernameOfHostOnlyUrl("https", "instagram.com", "/");
  }

  /** Text with no `:`, `?`, `#`, tab or line break that does not start with `/`, a control
      character or a space is all path. */
  lemma UrlPathWithoutScheme(url: string)
    requires NoneIn(url, {':', '?', '#'}) && NoneIn(url, Unsafe)
    requires url == [] || (url[0] != '/' && url[0] !in ControlOrSpace)
    ensures UrlPath(url) == url
  {
    CleanedUnchanged(url);
    FindFirstUnique(url, {':'}, 0, |url|);
    FindFirstUnique(url, {'?', '#'}, 0, |url|);
  }

  /** `instagram.com/alice`, without a scheme, is all path. */
  lemma UrlPathExampleWithoutScheme(url: string)
    requires url == "instagram.com/alice"
    ensures UrlPath(url) == url
  {
    assert NoneIn(url, {':', '?', '#'}) && NoneIn(url, Unsafe);
    assert url[0] == 'i';
    UrlPathWithoutScheme(url);
  }

  /** Without a scheme and `//` the whole text is the path, so its first segment is the host. */
  lemma UsernameExampleWithoutScheme(url: string)
    requires url == "instagram.com/alice"
    ensures ExtractUsername(url) == "instagram.com"
  {
    assert url == "" + "instagram.com" + "/alice";
    assert '/' !in "instagram.com";
    UrlPathExampleWithoutScheme(url);
    UsernameOfSegmentedPath("", "instagram.com", "/alice");
  }
}
