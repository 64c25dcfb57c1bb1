/** The verdict lines of `analyze`: the bio status, the overall security answer and the
    two-factor advice. */
module Verdict {

  const CleanStatus: string := "No suspicious link."
  const SuspiciousStatus: string := "\U{26A0}\U{FE0F} Suspicious link found!"
  const TwoFactorAdvice: string :=
    "Please make sure **Two-Factor Authentication** is enabled for added protection."

  const Yes: string := "Yes"
  const No: string := "No"

  /** The bio status reports the suspicion flag: the clean text exactly when nothing suspicious
      was found, the warning text exactly when something was. */
  function BioStatus(suspicious: bool): (status: string)
    ensures status == CleanStatus <==> !suspicious
    ensures status == SuspiciousStatus <==> suspicious
  {
    if !suspicious then CleanStatus else SuspiciousStatus
  }

  /** The account is reported secure exactly when no breach was counted and the bio is not
      suspicious; the answer is always one of the two words. */
  function Secure(breachCount: int, suspicious: bool): (secure: string)
    ensures secure == Yes <==> breachCount == 0 && !suspicious
    ensures secure == No <==> breachCount != 0 || suspicious
  {
    if breachCount == 0 && !suspicious then Yes else No
  }

  /** The four rows of the breach / suspicion table. */
  lemma SecureTable(breachCount: int)
    requires breachCount != 0
    ensures Secure(0, false) == Yes
    ensures Secure(0, true) == No
    ensures Secure(breachCount, false) == No
    ensures Secure(breachCount, true) == No
  {
  }

  /** A secure answer always comes with the clean bio status, and the warning status never
      comes with a secure answer. */
  lemma SecureMeansClean(breachCount: int, suspicious: bool)
    ensures Secure(breachCount, suspicious) == Yes ==> BioStatus(suspicious) == CleanStatus
    ensures BioStatus(suspicious) == SuspiciousStatus ==> Secure(breachCount, suspicious) == No
  {
  }
}
