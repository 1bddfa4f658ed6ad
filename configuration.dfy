/**
 * Program.cs start-up settings: the connection string and the JWT signing
 * secret each come from an environment variable, else from configuration;
 * a setting found in neither stops the start-up.
 */
module Configuration {
  import opened Wrappers

  datatype Settings = Settings(connectionString: string, jwtKey: string)

  const ConnectionStringMissing := "Connection string not configured."
  const JwtSecretMissing := "JWT secret not configured."

  /** `a ?? b`: the first value that is not null; an empty string counts as
      a value. */
  function Coalesce(a: Option<string>, b: Option<string>): (r: Option<string>)
    ensures r.Some? <==> a.Some? || b.Some?
    ensures a.Some? ==> r == a
    ensures a.None? ==> r == b
  {
    if a.Some? then a else b
  }

  /** The two settings, read in order: the connection string first, so its
      failure is the one reported when both are missing. */
  function Configure(
    envConnection: Option<string>, configConnection: Option<string>,
    envJwtSecret: Option<string>, configJwtKey: Option<string>): (r: Result<Settings, string>)
    ensures r.Success? <==>
      (envConnection.Some? || configConnection.Some?) && (envJwtSecret.Some? || configJwtKey.Some?)
    ensures envConnection.None? && configConnection.None? ==> r == Failure(ConnectionStringMissing)
    ensures (envConnection.Some? || configConnection.Some?) && envJwtSecret.None? && configJwtKey.None? ==>
      r == Failure(JwtSecretMissing)
    ensures r.Success? ==>
      && (envConnection.Some? ==> r.value.connectionString == envConnection.value)
      && (envConnection.None? ==> r.value.connectionString == configConnection.value)
      && (envJwtSecret.Some? ==> r.value.jwtKey == envJwtSecret.value)
      && (envJwtSecret.None? ==> r.value.jwtKey == configJwtKey.value)
  {
    match Coalesce(envConnection, configConnection)
    case None => Failure(ConnectionStringMissing)
    case Some(connectionString) =>
      match Coalesce(envJwtSecret, configJwtKey)
      case None => Failure(JwtSecretMissing)
      case Some(jwtKey) => Success(Settings(connectionString, jwtKey))
  }
}
