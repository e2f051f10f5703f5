/**
 * The start-up check on the signing secret (app/main.py): the application refuses to
 * load unless the secret is present and at least 16 characters long, and the
 * diagnostic endpoint reports the secret's length and nothing else.
 */
module SecretGate {
  import opened Wrappers

  const MinSecretLength: nat := 16

  /** The secret a test run supplies when none is configured. */
  const TestModeSecret: string := "testsecret123456"

  const ConfigErrorMessage: string := "JWT_SECRET missing or too short!"

  datatype ConfigError = ConfigError(message: string)

  /** The secret as configured, after a test run has filled in its default for a missing one. */
  function ConfiguredSecret(env: Option<string>, testMode: bool): (s: Option<string>)
    ensures env.Some? ==> s == env
    ensures env.None? ==> (s.Some? <==> testMode)
  {
    if testMode && env.None? then Some(TestModeSecret) else env
  }

  /** The gate: a missing, empty or shorter than 16 characters secret is a configuration error. */
  function LoadSecret(secret: Option<string>): (r: Result<string, ConfigError>)
    ensures r.Success? <==> secret.Some? && |secret.value| >= MinSecretLength
    ensures r.Success? ==> r.value == secret.value
    ensures r.Failure? ==> r.error == ConfigError(ConfigErrorMessage)
  {
    if secret.None? || secret.value == "" || |secret.value| < MinSecretLength then
      Failure(ConfigError(ConfigErrorMessage))
    else
      Success(secret.value)
  }

  /** Whatever a test run leaves unset, the default it substitutes passes the gate. */
  lemma TestModeDefaultPasses()
    ensures LoadSecret(ConfiguredSecret(None, true)) == Success(TestModeSecret)
    ensures LoadSecret(ConfiguredSecret(None, false)).Failure?
  {
  }

  datatype SecretInfo = SecretInfo(length: nat)

  /** `get_secret_info`: only the length of the secret. */
  function GetSecretInfo(secret: string): (info: SecretInfo)
    ensures info.length == |secret|
  {
    SecretInfo(|secret|)
  }

  /** The body of the secret-info endpoint. */
  datatype SecretInfoResponse = SecretInfoResponse(message: string, secretLength: nat)

  function SecretInfoEndpoint(secret: string): (r: SecretInfoResponse)
    ensures r.message == "Secret loaded safely" && r.secretLength == |secret|
  {
    SecretInfoResponse("Secret loaded safely", GetSecretInfo(secret).length)
  }

  /**
   * The endpoint leaks nothing of the secret but its length: two secrets of the same
   * length give the same response, and a loaded secret always reports at least 16.
   */
  lemma SecretInfoOnlyLength(s1: string, s2: string)
    ensures SecretInfoEndpoint(s1) == SecretInfoEndpoint(s2) <==> |s1| == |s2|
    ensures LoadSecret(Some(s1)).Success? ==> SecretInfoEndpoint(s1).secretLength >= MinSecretLength
  {
  }
}
