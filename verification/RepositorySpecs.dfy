/** The desired state of a LakeFSRepository resource, with the defaults its fields have. */
module RepositorySpecs {
  import opened Text

  const DEFAULT_POLICY_NAME := "default"

  datatype SecretRef = SecretRef(name: string, namespace: string, accessKeyKey: string, secretKeyKey: string)

  datatype Spec = Spec(
    repository: string, endpoint: string, storage: string, branch: string, sampleData: bool,
    credentials: SecretRef, gcEnabled: Option<bool>, policy: string)

  /** A repository on a lakeFS server. */
  datatype Target = Target(server: string, repository: string)

  /** How a call to the API server or to lakeFS ends. */
  datatype Outcome =
    | Done      // it went through and said so
    | Dropped   // it failed before it took effect
    | ReplyLost // it took effect, and failed for the caller
    | Missing   // a read that found nothing, for whatever reason

  predicate Applied(outcome: Outcome) { outcome.Done? || outcome.ReplyLost? }

  predicate Slash(c: char) { c == '/' }

  function RepositoryName(name: string, s: Spec): string { Or(s.repository, name) }

  function BranchName(s: Spec): string { Or(s.branch, "main") }

  function GCEnabled(s: Spec): bool { s.gcEnabled == None || s.gcEnabled == Some(true) }

  function PolicyName(s: Spec): string { Or(s.policy, DEFAULT_POLICY_NAME) }

  function CredentialsNamespace(namespace: string, s: Spec): string { Or(s.credentials.namespace, namespace) }

  function AccessKeyKey(s: Spec): string { Or(s.credentials.accessKeyKey, "accessKeyId") }

  function SecretKeyKey(s: Spec): string { Or(s.credentials.secretKeyKey, "secretAccessKey") }

  /** Server and repository a resource stands for; the client drops slashes at the end of the endpoint. */
  function TargetOf(name: string, s: Spec): Target {
    Target(TrimRight(s.endpoint, Slash), RepositoryName(name, s))
  }

  /** Whether the resource says all that is needed to reach its repository, and to create it. */
  predicate Reachable(name: string, s: Spec) { RepositoryName(name, s) != "" && s.endpoint != "" }

  predicate Creatable(name: string, s: Spec) { Reachable(name, s) && s.storage != "" }
}
