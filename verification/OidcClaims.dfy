/** The claims of a generic OIDC assertion, as verification hands them to the policy and the ledger. */
module OidcClaims {
  import opened Wrappers
  import opened Numbers

  /** A JSON value; only strings can match a binding. */
  datatype Value = Text(text: string) | Other

  datatype Claims = Claims(
    issuer: string,
    subject: string,
    expiresAt: Seconds,
    issuedAt: Seconds,
    jti: Option<string>,
    buildNumber: Option<nat>,
    values: map<string, Value>)
}
