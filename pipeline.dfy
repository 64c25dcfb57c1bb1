/** The sequential part of `analyze`: extract the handle, fetch the profile, scan the bio, derive
    the verdict. The network fetch is an input: it maps the request address to the page text, or
    to None when the request raises. */
module Pipeline {
  import opened Wrappers
  import opened Username
  import opened LinkScan
  import opened Verdict

  /** What `analyze` stores and reports for one request. */
  datatype Report = Report(
    email: string,
    instagramUrl: string,
    username: string,
    breachCount: int,
    bioStatus: string,
    isSecure: string,
    twoFactor: string)

  /** The breach count the code uses in place of a real lookup. */
  const SimulatedBreachCount: int := 0

  /** The profile address the code requests for a handle. */
  function ProfileRequestUrl(username: string): (url: string)
    ensures |url| == 26 + |username| + 15
    ensures url[..26] == "https://www.instagram.com/"
    ensures url[26..26 + |username|] == username
    ensures url[26 + |username|..] == "/?__a=1&__d=dis"
  {
    "https://www.instagram.com/" + username + "/?__a=1&__d=dis"
  }

  /** Different handles request different addresses: the handle can be read back from the
      address. */
  lemma ProfileRequestUrlInjective(a: string, b: string)
    requires ProfileRequestUrl(a) == ProfileRequestUrl(b)
    ensures a == b
  {
    var u := ProfileRequestUrl(a);
    assert |a| == |b|;
    assert a == u[26..26 + |a|] == b;
  }

  /** The bio the scan sees: the page text, or the empty text when the request raised. */
  function FetchedBio(outcome: Option<string>): (bio: string)
    ensures outcome.None? ==> bio == ""
    ensures outcome.Some? ==> bio == outcome.value
  {
    match outcome
    case None => ""
    case Some(text) => text
  }

  /** The report `analyze` builds, stated with the specification of each step. */
  function ReportOf(email: string, url: string, fetch: string -> Option<string>, breachCount: int): (r: Report)
    ensures r.email == email && r.instagramUrl == url && r.breachCount == breachCount
    ensures r.username == ExtractUsername(url)
    ensures r.isSecure == Yes <==> breachCount == 0 && r.bioStatus == CleanStatus
    ensures r.isSecure == Yes || r.isSecure == No
    ensures r.bioStatus == CleanStatus || r.bioStatus == SuspiciousStatus
    ensures r.bioStatus == CleanStatus <==> !Suspicious(FetchedBio(fetch(ProfileRequestUrl(r.username))))
    ensures r.twoFactor == TwoFactorAdvice
  {
    var username := ExtractUsername(url);
    var suspicious := Suspicious(FetchedBio(fetch(ProfileRequestUrl(username))));
    Report(email, url, username, breachCount, BioStatus(suspicious), Secure(breachCount, suspicious),
      TwoFactorAdvice)
  }

  /** `analyze` without the web, storage and mail plumbing. */
  method Analyze(email: string, url: string, fetch: string -> Option<string>, breachCount: int)
    returns (r: Report)
    ensures r == ReportOf(email, url, fetch, breachCount)
    ensures r.username == ExtractUsername(url)
    ensures r.isSecure == Yes <==> breachCount == 0 && r.bioStatus == CleanStatus
    ensures r.isSecure == Yes || r.isSecure == No
    ensures r.bioStatus == CleanStatus || r.bioStatus == SuspiciousStatus
    ensures r.bioStatus == CleanStatus <==> !Suspicious(FetchedBio(fetch(ProfileRequestUrl(r.username))))
    ensures fetch(ProfileRequestUrl(r.username)).None? ==> r.bioStatus == CleanStatus
  {
    var username := ExtractUsername(url);
    var outcome := fetch(ProfileRequestUrl(username));
    var bio := FetchedBio(outcome);
    var suspicious := FindSuspiciousLinks(bio);
    var bioStatus := BioStatus(suspicious);
    var secure := Secure(breachCount, suspicious);
    r := Report(email, url, username, breachCount, bioStatus, secure, TwoFactorAdvice);
    if outcome.None? {
      EmptyBioNotSuspicious();
    }
  }

  /** A failed fetch does not stop the pipeline: with the simulated breach count the bio is
      reported clean and the account secure. */
  lemma FailedFetchIsSecure(email: string, url: string, fetch: string -> Option<string>)
    requires fetch(ProfileRequestUrl(ExtractUsername(url))).None?
    ensures ReportOf(email, url, fetch, SimulatedBreachCount).bioStatus == CleanStatus
    ensures ReportOf(email, url, fetch, SimulatedBreachCount).isSecure == Yes
  {
    EmptyBioNotSuspicious();
  }

  /** The report is secure exactly when no breach was counted and the fetched bio is not
      suspicious, and it then carries the clean status; in every other case it says No. */
  lemma ReportSecureIff(email: string, url: string, fetch: string -> Option<string>, breachCount: int)
    ensures var r := ReportOf(email, url, fetch, breachCount);
      && (r.isSecure == Yes <==>
           breachCount == 0 && !Suspicious(FetchedBio(fetch(ProfileRequestUrl(r.username)))))
      && (r.isSecure == No <==>
           breachCount != 0 || Suspicious(FetchedBio(fetch(ProfileRequestUrl(r.username)))))
      && (r.isSecure == Yes ==> r.bioStatus == CleanStatus)
  {
  }

  /** The two-factor advice does not depend on any input. */
  lemma AdviceIsConstant(email: string, url: string, fetch: string -> Option<string>, breachCount: int,
                         email': string, url': string, fetch': string -> Option<string>, breachCount': int)
    ensures ReportOf(email, url, fetch, breachCount).twoFactor
         == ReportOf(email', url', fetch', breachCount').twoFactor
         == TwoFactorAdvice
  {
  }
}
