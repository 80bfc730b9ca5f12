/** The claims of a GitHub Actions assertion, as verification hands them to the policy and the ledger. */
module GitHubClaims {
  import opened Numbers

  datatype Audience = One(name: string) | Many(names: seq<string>) | Missing

  datatype Claims = Claims(
    iss: string,
    sub: string,
    aud: Audience,
    exp: Seconds,
    iat: Seconds,
    nbf: Seconds,
    jti: string,
    actorId: string,
    actor: string,
    repository: string,
    repositoryId: string,
    ownerId: string,
    sha: string,
    runId: string,
    runAttempt: nat,
    workflowRef: string,
    workflowSha: string,
    jobWorkflowRef: string,
    jobWorkflowSha: string,
    eventName: string,
    gitRef: string)
}
