/** Worked examples of the whole pipeline. The bio text is a parameter that the precondition
    fixes, as in the other example modules, which keeps each proof small. */
module PipelineExamples {
  import opened Wrappers
  import opened Verdict
  import opened Pipeline
  import opened LinkExamples

  /** A shortened link in the fetched bio makes the report suspicious and not secure, whatever
      the breach count. */
  lemma ShortenedLinkReport(email: string, url: string, breachCount: int, words: string, link: string)
    requires words == "Sale at " && link == "http://bit.ly/xyz"
    ensures var fetch := (request: string) => Some(words + link);
      && ReportOf(email, url, fetch, breachCount).bioStatus == SuspiciousStatus
      && ReportOf(email, url, fetch, breachCount).isSecure == No
  {
    ShortenedLinkIsSuspicious(words, link);
  }
}
