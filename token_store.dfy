/**
 * Resolution of the bearer token (download.py:15, 39-61, 140-143): the
 * environment variable wins when it is non-empty; otherwise the stripped
 * contents of the token file are used, a file that cannot be read giving no
 * token; only when that yields nothing or the empty string is the user
 * prompted, and what they type is stored in the token file.
 */
module TokenStore {
  import opened Wrappers
  import opened PyStr

  /** The variable that renames the token variable, and the token variable's default name. */
  const TokenNameVariable: string := "CIVITAI_TOKEN_NAME"
  const DefaultTokenVariable: string := "CIVITAI_TOKEN"

  type Environment = map<string, string>

  /** What opening and reading the token file yields: its text, or an exception. */
  datatype TokenFile = Readable(text: string) | Unreadable

  /** The token obtained, the token file afterwards, and whether the user was prompted. */
  datatype Resolution = Resolution(token: string, file: TokenFile, prompted: bool)

  /** The name of the variable that holds the token (`DEFAULT_ENV_NAME`). */
  function TokenVariable(env: Environment): string
  {
    if TokenNameVariable in env then env[TokenNameVariable] else DefaultTokenVariable
  }

  /** `os.getenv(DEFAULT_ENV_NAME, None)`. */
  function EnvToken(env: Environment): Option<string>
  {
    var name := TokenVariable(env);
    if name in env then Some(env[name]) else None
  }


  /** `get_token()`. */
  function GetToken(env: Environment, file: TokenFile): (t: Option<string>)
    ensures Truthy(EnvToken(env)) ==> t == EnvToken(env)
    ensures !Truthy(EnvToken(env)) && file.Unreadable? ==> t == None
    ensures !Truthy(EnvToken(env)) && file.Readable? ==>
      t.Some? && StrippedAt(file.text, Whitespace, t.value, |file.text| - |StripStart(file.text, Whitespace)|)
    ensures !Truthy(EnvToken(env)) && t.Some? && t.value != [] ==>
      t.value[0] !in Whitespace && t.value[|t.value| - 1] !in Whitespace
  {
    var fromEnv := EnvToken(env);
    if Truthy(fromEnv) then fromEnv
    else if file.Unreadable? then None
    else
      var stripped := Strip(file.text, Whitespace);
      assert StrippedAt(file.text, Whitespace, stripped, |file.text| - |StripStart(file.text, Whitespace)|);
      Some(stripped)
  }

  /** `store_token(token)`: the file afterwards holds exactly the token. */
  function StoreToken(token: string): TokenFile
  {
    Readable(token)
  }

  /** The token resolution in `main`: `get_token()`, then the prompt (which stores its answer) when that is falsy. */
  function ResolveToken(env: Environment, file: TokenFile, typed: string): (r: Resolution)
    ensures r.prompted <==> !Truthy(GetToken(env, file))
    ensures Truthy(EnvToken(env)) ==> r == Resolution(EnvToken(env).value, file, false)
    ensures !r.prompted ==> Some(r.token) == GetToken(env, file) && r.token != "" && r.file == file
    ensures r.prompted ==> r.token == typed && r.file == Readable(typed)
  {
    var t := GetToken(env, file);
    if Truthy(t) then Resolution(t.value, file, false)
    else Resolution(typed, StoreToken(typed), true)
  }

  /** The environment value takes precedence over whatever the token file holds. */
  lemma EnvironmentWins(env: Environment, file: TokenFile, other: TokenFile, typed: string)
    requires Truthy(EnvToken(env))
    ensures ResolveToken(env, file, typed).token == ResolveToken(env, other, typed).token == EnvToken(env).value
    ensures !ResolveToken(env, file, typed).prompted
  {
  }

  /** A token typed at the prompt is read back, stripped, from the stored file by the next resolution. */
  lemma PromptedTokenIsReadBack(env: Environment, file: TokenFile, typed: string, typedAgain: string)
    requires !Truthy(EnvToken(env))
    requires ResolveToken(env, file, typed).prompted
    ensures var stored := ResolveToken(env, file, typed).file;
      GetToken(env, stored) == Some(Strip(typed, Whitespace))
    ensures var stored := ResolveToken(env, file, typed).file;
      ResolveToken(env, stored, typedAgain).prompted <==> Strip(typed, Whitespace) == ""
  {
  }
}
