# Social media security analyzer: the decision core

The analyzer is a small Flask application (`app.py`). A user submits an e-mail address and an
Instagram profile URL. The `analyze` view then:

1. takes the handle out of the URL (`extract_username`);
2. requests the profile page, falling back to an empty bio when the request raises;
3. scans the bio for links to URL shorteners or tracking sites (`find_suspicious_links`);
4. reports a bio status, a security verdict and a fixed two-factor advice.

This project models those four steps in Dafny and proves what each step promises.

Modules:

- `Text` holds the character classes and string helpers: Python's whitespace set, ASCII case
  folding, substring containment, "first character from a set", `lstrip`/`rstrip` and
  character deletion.
- `Wrappers` holds `Option`.
- `Username` models `extract_username`:
  - `urlparse(url).path` as the `urlsplit` of CPython 3.12 computes it:
    - leading C0 controls and spaces are stripped (trailing ones are kept);
    - every tab, line feed and carriage return is deleted;
    - a scheme (an ASCII letter, then letters, digits, `+`, `-`, `.`) ends at the first `:`;
    - a `//` authority runs to the first `/`, `?` or `#`;
    - the path runs from there to the first `?` or `#`;
  - `strip('/')`;
  - `split('/')[0]`.
- `LinkScan` models `find_suspicious_links`:
  - `re.findall(r'http[s]?://\S+', bio)` as a left-to-right scan over the bio (`SpansFrom`);
  - a second, declarative description of that scan (`IsScanOf`: greedy matches, with no match
    starting in any gap), proved equivalent to the scan in both directions;
  - the early-exit marker loop, as the method `FindMarkedLink`, which `FindSuspiciousLinks`
    runs on the links.
- `LinkExamples` works the scan and the marker check on concrete bios, and `PipelineExamples`
  works the whole pipeline on one.
- `Verdict` models the bio status line, the `Yes`/`No` security line and the advice string.
- `Pipeline` models the sequential body of `analyze`:
  - the network fetch is an input, a function from the request address to `Some(page text)`,
    or to `None` when the request raises;
  - the breach count is a parameter; the code fixes it to `SimulatedBreachCount`, which is 0.

Three behaviours of the code are easy to misread, and the model follows the code in each:

- Only an exception empties the bio (app.py:45-49). A response with an error status still
  yields `response.text`, and that text is scanned. In the model a fetch returning
  `Some(text)` stands for any response, whatever its status.
- `find_suspicious_links` returns only a boolean, not the links it found, and so does
  `FindSuspiciousLinks`.
- `extract_username` never raises on an empty handle. It returns `""`, and the request goes
  ahead with it.

## Model

| member | source | states |
|---|---|---|
| Text.IsSpace | app.py:82 | the whitespace that `\s` matches and `\S` excludes is the set Python's `str.isspace` accepts |
| Text.LowerChar | app.py:84 | `.lower()` on one character: `A`-`Z` become `a`-`z`, every other character is kept |
| Text.Lower | app.py:84 | `.lower()` keeps the length and folds each character in place |
| Text.Contains | app.py:84 | Python's `bad in text`: the marker occurs in the text as a contiguous piece |
| Text.FindFirst | app.py:77 | the `str.find`-style search the URL split uses: the first position at or after the start whose character is a stop, or the end of the text, with no stop in between |
| Text.DropLeading | app.py:78 | the leading strip leaves a suffix that does not start with a stripped character, and removes only such characters |
| Text.DropTrailing | app.py:78 | the trailing strip leaves a prefix that does not end with a stripped character, and removes only such characters |
| Text.DropLeadingUnique | app.py:78 | a run of stripped characters followed by another character or by the end of the text is exactly what the leading strip removes |
| Text.Remove | app.py:77 | deleting characters leaves none of them, and leaves text without any of them unchanged |
| Text.RemoveDeleted | app.py:77 | a character to delete is deleted, not replaced: on its own it leaves the empty text; with RemoveConcat and the unchanged clause this fixes the result on every input, as `replace(c, "")` does |
| Text.RemoveConcat | app.py:77 | deleting characters works piece by piece |
| Username.Cleaned | app.py:77 | the text `urlparse` splits holds no tab, line feed or carriage return and does not start with a control character or a space |
| Username.CleanedOf | app.py:77 | cleaning a URL made of a leading run of controls and spaces and a rest is deleting the tabs, line feeds and carriage returns from the rest, every other character kept in order |
| Username.IsScheme | app.py:77 | a scheme name, as `urlsplit` accepts it: an ASCII letter followed by letters, digits, `+`, `-` and `.` |
| Username.HasAuthority | app.py:77 | the text after the scheme starts with `//`, which is what makes `urlsplit` read an authority |
| Username.SchemeEnd | app.py:77 | a scheme is cut off only when everything before the first `:` is a well-formed scheme |
| Username.PathStart | app.py:77 | without `//` after the scheme the path starts where the scheme ends; with it, the authority after `//` holds no `/`, `?` or `#` and the path starts at the first of them or at the end of the text |
| Username.SplitPath | app.py:77 | the path of cleaned text never holds a query `?` or a fragment `#` |
| Username.UrlPath | app.py:77 | the path component a URL yields never holds a query `?` or a fragment `#` |
| Username.StripSlashes | app.py:78 | `strip('/')` leaves a piece of the text with only `/` before and after it, which neither starts nor ends with `/` |
| Username.StripSlashesUnique | app.py:78 | those properties determine `strip('/')`: any such piece is its result |
| Username.UsernameOfPath | app.py:78-79 | the handle of a path never holds `/`, is a prefix of the path with `/` stripped at both ends, and is empty exactly when that stripped path is empty |
| Username.ExtractUsername | app.py:76-79 | the handle of a URL holds no `/` and is a prefix of its stripped path |
| Username.FirstSegment | app.py:79 | `split('/')[0]` is a prefix without `/`, ending at the end of the text or just before a `/` |
| Username.FirstSegmentUnique | app.py:79 | those three properties determine `split('/')[0]` |
| Username.UsernameIsFirstSegmentAfterLeadingSlashes | app.py:78-79 | the handle is the first segment after the leading slashes: trailing slashes play no part |
| Username.UsernameOfSegmentedPath | app.py:78-79 | slashes, then a non-empty name without `/`, then nothing or further segments, give that name |
| Username.UsernameIgnoresTrailingSlash | app.py:78-79 | appending `/` to a path never changes its handle (`/bob/` and `/bob` both give `bob`) |
| Username.EmptyUsernameIffOnlySlashes | app.py:78-79 | the handle is empty exactly when the path consists of `/` only (`""`, `"/"`, `"///"`) |
| Username.SchemeEndOf | app.py:77 | a well-formed scheme followed by `:` is cut off whole |
| Username.PathStartOf | app.py:77 | after a scheme, `://` and a host without `/`, `?` or `#`, the path starts where the host ends |
| Username.PathStartOfHierarchicalUrl | app.py:77 | in `scheme://host` followed by a rest, the path starts where the rest does |
| Username.SplitPathFrom | app.py:77 | the path is the text from its start, cut at the first `?` or `#` |
| Username.SplitPathOfHierarchicalUrl | app.py:77 | the path of cleaned `scheme://host` followed by a rest starting with `/`, `?` or `#` (or empty) is that rest cut at the first `?` or `#` |
| Username.CleanedUnchanged | app.py:77 | text without a leading control character or space and without tab, line feed or carriage return is split as it is |
| Username.CleanedIdempotent | app.py:77 | cleaning twice is cleaning once |
| Username.UsernameOfCleaned | app.py:76-79 | a URL and its cleaned form give the same handle |
| Username.CleanedHierarchicalUrl | app.py:77 | `scheme://host...` without tabs and line breaks is left alone by cleaning |
| Username.UrlPathOfHierarchicalUrl | app.py:77 | the path of `scheme://host` followed by a rest starting with `/`, `?` or `#` (or empty), free of tabs and line breaks, is that rest cut at the first `?` or `#` |
| Username.CutProfilePath | app.py:77 | a path `/name...` is cut at the query or fragment after the name |
| Username.UsernameOfProfileUrl | app.py:76-79 | `scheme://host/name...` has the handle `name`, whatever follows it: more segments, a query, a fragment or a trailing slash |
| Username.UsernameOfHostOnlyUrl | app.py:76-79 | `scheme://host` and `scheme://host/` give the empty handle |
| Username.UsernameOfInstagramUrl | app.py:76-79 | `https://instagram.com/name...` has the handle `name` |
| Username.UrlPathWithoutScheme | app.py:77 | text without `:`, `?`, `#`, tabs and line breaks, not starting with `/`, a control character or a space, is all path |
| Username.UsernameExampleAlice | app.py:76-79 | `https://instagram.com/alice` gives `alice` |
| Username.UsernameExampleBob | app.py:76-79 | `https://instagram.com/bob/` gives `bob` |
| Username.UsernameExampleCarol | app.py:76-79 | `https://instagram.com/carol?hl=en` gives `carol` |
| Username.RemoveExampleTab | app.py:77 | deleting the tab from `https://instagram.com/al<TAB>ice` gives `https://instagram.com/alice` |
| Username.CleanedExampleTab | app.py:77 | cleaning `https://instagram.com/al<TAB>ice` gives `https://instagram.com/alice` |
| Username.UsernameExampleTab | app.py:76-79 | `https://instagram.com/al<TAB>ice` gives `alice` |
| Username.UsernameExampleEmpty | app.py:76-79 | the empty URL gives the empty handle, without an error |
| Username.UsernameExampleBareHost | app.py:76-79 | `https://instagram.com/` gives the empty handle |
| Username.UrlPathExampleWithoutScheme | app.py:77 | `instagram.com/alice`, without a scheme, is all path |
| Username.UsernameExampleWithoutScheme | app.py:76-79 | without a scheme the host is read as the path, so `instagram.com/alice` gives `instagram.com` |
| LinkScan.IsLinkText | app.py:82 | text the pattern matches whole: `http://` or `https://`, at least one more character, no whitespace |
| LinkScan.IsMatch | app.py:82 | the match at a position is link text that the greedy `\S+` cannot extend: whitespace or the end follows it |
| LinkScan.PrefixLength | app.py:82 | the `http[s]?://` prefix at a position is `https://` when that is there, else `http://` when that is there, else absent |
| LinkScan.MatchAt | app.py:82 | a match the pattern makes at a position is link text followed by whitespace or by the end of the text |
| LinkScan.MatchAtNone | app.py:82 | the pattern fails at a position exactly when no link text starts there |
| LinkScan.MatchAtOfMatch | app.py:82 | the greedy match at a position is unique |
| LinkScan.SpansFrom | app.py:82 | the matches findall makes are greedy matches, do not overlap and are in textual order |
| LinkScan.Links | app.py:82 | every link is a piece of the bio, starts with `http://` or `https://`, has a character after `://`, holds no whitespace, and is followed by whitespace or the end; the links do not overlap and are in textual order |
| LinkScan.SpansAreScan | app.py:82 | the scan's matches satisfy the declarative description of a leftmost, non-overlapping, greedy findall |
| LinkScan.ScanIsSpans | app.py:82 | any sequence of matches satisfying that description is the scan's result |
| LinkScan.NoMatchNoLinks | app.py:82 | with no match anywhere, findall returns no link |
| LinkScan.HasMarker | app.py:84 | a link is marked when its lower-cased text contains `bit.ly`, `grabify` or `shady` |
| LinkScan.AnyMarked | app.py:83-85 | the reference answer of checking every link: some link is marked |
| LinkScan.Suspicious | app.py:82-86 | a bio is suspicious when some link findall returns from it is marked |
| LinkScan.FindMarkedLink | app.py:83-86 | the early-exit loop answers true exactly when some link is marked, which is the answer of checking every link |
| LinkScan.FindSuspiciousLinks | app.py:81-86 | the answer is true exactly when some extracted link, lower-cased, contains `bit.ly`, `grabify` or `shady` |
| LinkScan.SuspiciousHasMarkedMatch | app.py:82-85 | a suspicious bio holds a greedy match that carries a marker |
| LinkScan.MarkerInSlice | app.py:84 | a marker carried by a piece of the bio occurs in the lower-cased bio |
| LinkScan.NoMarkerNotSuspicious | app.py:82-86 | a bio whose lower-cased text holds no marker at all is not suspicious |
| LinkScan.MatchNeedsScheme | app.py:82 | the pattern fails where no `http://` or `https://` followed by a non-whitespace character starts |
| LinkScan.NoSchemeNotSuspicious | app.py:82-86 | a bio in which no `http://` or `https://` is followed by a non-whitespace character has no links and is not suspicious |
| LinkScan.EmptyBioNotSuspicious | app.py:48-49 | the empty bio of a failed fetch has no links and is not suspicious |
| LinkScan.NoMatchWithoutH | app.py:82 | the pattern fails at every position whose character is not `h` |
| LinkScan.LastLink | app.py:82 | link text running to the end of the bio, with no match before it, is the only link |
| LinkScan.SoleLink | app.py:82-86 | after text without `h`, link text at the end is the only link, and the bio is suspicious exactly when that link carries a marker |
| LinkScan.LinkPair | app.py:82 | two pieces of link text separated by one whitespace character are the two links, in textual order |
| LinkScan.NoMarkerWithoutInitial | app.py:84 | a link holding no `b`, `g` or `s` in either case carries no marker |
| LinkScan.PrintableLinkText | app.py:82 | a scheme prefix followed by printable ASCII text is link text |
| LinkExamples.MarkerAt | app.py:84 | a marker found at a position of the lower-cased link makes the link marked |
| LinkExamples.ShortenedLinkIsSuspicious | app.py:81-86 | `Sale at http://bit.ly/xyz` has the one link `http://bit.ly/xyz` and is suspicious |
| LinkExamples.UpperCaseMarkerIsSuspicious | app.py:84 | `http://BIT.LY/x` is suspicious: the marker check is case-insensitive |
| LinkExamples.BareMarkerIsNotSuspicious | app.py:82-86 | `see bit.ly at http://example.com` is not suspicious: a marker outside every link does not count |
| LinkExamples.MarkersWithoutLinkAreNotSuspicious | app.py:82-86 | `visit bit.ly or grabify` has no links and is not suspicious |
| LinkExamples.BareSchemeIsNoLink | app.py:82 | `http:// x` has no link: `\S+` needs at least one character |
| LinkExamples.TrackingLinkIsMarked | app.py:84 | `https://grabify.link/q` carries the `grabify` marker |
| LinkExamples.TwoLinksInOrder | app.py:82-86 | two links come back in textual order, and a marked first link makes the bio suspicious |
| Verdict.BioStatus | app.py:52 | the bio status is `No suspicious link.` exactly when not suspicious, and the warning text exactly when suspicious |
| Verdict.Secure | app.py:53 | the verdict is `Yes` exactly when the breach count is 0 and the bio is not suspicious, and `No` otherwise |
| Verdict.SecureTable | app.py:53 | the four rows of the breach / suspicion table |
| Verdict.SecureMeansClean | app.py:52-53 | a `Yes` verdict always comes with the clean status; the warning status never comes with `Yes` |
| Pipeline.ProfileRequestUrl | app.py:46 | the request address is the Instagram base, the handle, then `/?__a=1&__d=dis` |
| Pipeline.ProfileRequestUrlInjective | app.py:46 | different handles request different addresses |
| Pipeline.FetchedBio | app.py:45-49 | the bio is the page text, or empty when the request raised |
| Pipeline.ReportOf | app.py:51-57 | the report keeps the e-mail, URL and breach count, carries the handle of the URL and the fixed advice, has one of the two statuses, is clean exactly when the fetched bio is not suspicious, whatever the breach count, is secure (`Yes`) exactly when the breach count is 0 and the status is clean, and otherwise says `No` |
| Pipeline.Analyze | app.py:41-54 | the report carries the handle of the URL; its status is clean exactly when the fetched bio is not suspicious; it has one of the two statuses; it says `Yes` exactly when the breach count is 0 and the status is clean, and `No` otherwise; a raising fetch gives the clean status |
| Pipeline.FailedFetchIsSecure | app.py:43-53 | with the simulated breach count and a raising fetch, the pipeline completes with the clean status and `Yes` |
| Pipeline.ReportSecureIff | app.py:51-53 | the report says `Yes` exactly when the breach count is 0 and the fetched bio is not suspicious, `No` exactly when a breach was counted or the bio is suspicious, and is clean whenever it says `Yes` |
| Pipeline.AdviceIsConstant | app.py:54 | the two-factor advice is the same fixed text for every input |
| PipelineExamples.ShortenedLinkReport | app.py:45-53 | a fetched bio holding a shortened link gives the warning status and `No`, whatever the breach count |

## Left out

- Flask routing, form reading and templates (`index`, `history`, `render_template`): web plumbing.
- The SQLAlchemy `Analysis` table and `db.session.add`/`commit`: storage through a library whose
  code is not part of this model. `Report` holds the six values app.py:56-57 stores, without the
  `id` the database assigns, plus `twoFactor`, the advice app.py:54 computes and app.py:67 passes
  only to the template; it is not a column.
- `requests.get`: network I/O. It is the `fetch` parameter, and the `User-Agent` header is not
  modelled.
- `send_email`, environment loading (`load_dotenv`, `os.getenv`) and start-up code: mail and
  environment I/O.
- Username.UrlPath follows the `urlsplit` of CPython 3.12 and leaves out:
  - the `;params` split `urlparse` makes on the last path segment, so `https://instagram.com/alice;x`
    gives `alice;x` here where Python gives `alice` (Username.UsernameOfProfileUrl and
    Username.UsernameOfInstagramUrl inherit this for a name holding `;`);
  - netloc validation, which can make the library raise, for example on an unbalanced `[`; the
    model never raises;
  - lower-casing of the scheme and bytes input, neither of which changes the path.
- Text.Lower and Text.LowerChar: only ASCII letters are folded, not full Unicode `str.lower()`
  (`É` stays `É`). This changes no answer of the marker check: the only characters outside ASCII
  whose lower case holds an ASCII letter are U+0130 (`i` and U+0307) and U+212A (`k`), and
  neither can complete `bit.ly`, `grabify` or `shady`.
- Text.IsSpace: whitespace is the fixed set that Python's `str.isspace` accepts. Unicode
  databases that differ from it are not modelled.
- Request address quoting: the handle is passed to the request address as it is. The URL-building
  behaviour of `requests` (quoting, normalisation) is not modelled.
