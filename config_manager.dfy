/** ConfigManager: the environments, user profiles and locales of the
    workspace configuration, and the variables an environment and a user
    contribute to a request. An optional text that is absent is the empty
    text: the code only ever tests such values for truthiness. */
module ConfigManager {
  import opened Wrappers
  import opened Dicts

  datatype Environment = Environment(name: string, variables: Dict)

  /** A user profile; an absent username, password or token is "". */
  datatype UserProfile = UserProfile(name: string, username: string, password: string, token: string, variables: Dict)

  datatype LocaleSettings = LocaleSettings(locale: string, timezone: string)

  /** The configuration; an absent default environment or user is "". */
  datatype ExtensionConfig = ExtensionConfig(
    environments: seq<Environment>,
    users: seq<UserProfile>,
    locales: seq<LocaleSettings>,
    defaultEnvironment: string,
    defaultUser: string)

  /** The configuration used until a configuration file is loaded. */
  const DefaultConfig: ExtensionConfig := ExtensionConfig(
    [Environment("local", [("host", "localhost:3000"), ("protocol", "http")])],
    [],
    [LocaleSettings("en-US", "America/New_York")],
    "local",
    "")

  /** `Array.prototype.find`: the first element satisfying `p`. */
  function Find<T>(xs: seq<T>, p: T -> bool): (r: Option<T>)
    ensures r.Some? ==> r.value in xs && p(r.value)
    ensures r.None? <==> forall j | 0 <= j < |xs| :: !p(xs[j])
  {
    if xs == [] then None
    else if p(xs[0]) then Some(xs[0])
    else Find(xs[1..], p)
  }

  /** Find returns the first match. */
  lemma {:induction false} FindFirst<T>(xs: seq<T>, p: T -> bool, i: nat)
    requires i < |xs| && p(xs[i]) && forall j | 0 <= j < i :: !p(xs[j])
    ensures Find(xs, p) == Some(xs[i])
  {
    if i > 0 {
      FindFirst(xs[1..], p, i - 1);
    }
  }

  function EnvironmentNamed(c: ExtensionConfig, name: string): Option<Environment> {
    Find(c.environments, (e: Environment) => e.name == name)
  }

  function UserNamed(c: ExtensionConfig, name: string): Option<UserProfile> {
    Find(c.users, (u: UserProfile) => u.name == name)
  }

  /** The environment getMergedVariables uses: the named one when a name is
      given, the default one only when none is. */
  function SelectedEnvironment(c: ExtensionConfig, environmentName: string): (r: Option<Environment>)
    ensures r.Some? ==> r.value in c.environments
    ensures r.Some? ==> r.value.name == (if environmentName != "" then environmentName else c.defaultEnvironment)
  {
    if environmentName != "" then EnvironmentNamed(c, environmentName)
    else if c.defaultEnvironment != "" then EnvironmentNamed(c, c.defaultEnvironment)
    else None
  }

  /** The user getMergedVariables uses, chosen the same way. */
  function SelectedUser(c: ExtensionConfig, userName: string): (r: Option<UserProfile>)
    ensures r.Some? ==> r.value in c.users
    ensures r.Some? ==> r.value.name == (if userName != "" then userName else c.defaultUser)
  {
    if userName != "" then UserNamed(c, userName)
    else if c.defaultUser != "" then UserNamed(c, c.defaultUser)
    else None
  }

  /** The user's contribution written over `variables`: username, password
      and token when set, then the user's own variables. */
  function WithUser(variables: Dict, u: UserProfile): Dict {
    var a := if u.username != "" then Put(variables, "username", u.username) else variables;
    var b := if u.password != "" then Put(a, "password", u.password) else a;
    var d := if u.token != "" then Put(b, "token", u.token) else b;
    Assign(d, u.variables)
  }

  /** What getMergedVariables returns. */
  function MergedVariables(c: ExtensionConfig, environmentName: string, userName: string): Dict {
    var env := match SelectedEnvironment(c, environmentName)
      case Some(e) => Assign([], e.variables)
      case None => [];
    match SelectedUser(c, userName)
    case Some(u) => WithUser(env, u)
    case None => env
  }

  /** The value a user profile gives a variable, if any: its own variables
      first, then its username, password or token. */
  function UserValue(u: UserProfile, k: string): Option<string> {
    if k in Keys(u.variables) then Get(u.variables, k)
    else if k == "username" && u.username != "" then Some(u.username)
    else if k == "password" && u.password != "" then Some(u.password)
    else if k == "token" && u.token != "" then Some(u.token)
    else None
  }

  /** The variables of the selected environment. */
  function EnvironmentVariables(c: ExtensionConfig, environmentName: string): Dict {
    match SelectedEnvironment(c, environmentName)
    case Some(e) => e.variables
    case None => []
  }

  /** Configuration objects have distinct keys. */
  predicate WellFormed(c: ExtensionConfig) {
    (forall e | e in c.environments :: Unique(e.variables))
    && (forall u | u in c.users :: Unique(u.variables))
  }

  /** The precedence of getMergedVariables: the selected user's own
      variables, then its username, password and token, then the selected
      environment's variables. */
  lemma MergedPrecedence(c: ExtensionConfig, environmentName: string, userName: string, k: string)
    requires WellFormed(c)
    ensures Get(MergedVariables(c, environmentName, userName), k) ==
      match SelectedUser(c, userName)
      case Some(u) => if UserValue(u, k).Some? then UserValue(u, k) else Get(EnvironmentVariables(c, environmentName), k)
      case None => Get(EnvironmentVariables(c, environmentName), k)
  {
    var env := match SelectedEnvironment(c, environmentName)
      case Some(e) => Assign([], e.variables)
      case None => [];
    assert Get(env, k) == Get(EnvironmentVariables(c, environmentName), k) by {
      match SelectedEnvironment(c, environmentName)
      case Some(e) =>
        AssignGet([], e.variables, k);
      case None =>
    }
    match SelectedUser(c, userName)
    case Some(u) =>
      WithUserGet(env, u, k);
    case None =>
  }

  lemma WithUserGet(variables: Dict, u: UserProfile, k: string)
    requires Unique(u.variables)
    ensures Get(WithUser(variables, u), k) == if UserValue(u, k).Some? then UserValue(u, k) else Get(variables, k)
  {
    var a := if u.username != "" then Put(variables, "username", u.username) else variables;
    var b := if u.password != "" then Put(a, "password", u.password) else a;
    var d := if u.token != "" then Put(b, "token", u.token) else b;
    AssignGet(d, u.variables, k);
    if u.username != "" && k != "username" {
      PutOther(variables, "username", u.username, k);
    }
    if u.password != "" && k != "password" {
      PutOther(a, "password", u.password, k);
    }
    if u.token != "" && k != "token" {
      PutOther(b, "token", u.token, k);
    }
  }

  /** An explicit environment name that names no environment contributes
      nothing, even when a default environment exists. */
  lemma UnknownEnvironmentIgnored(c: ExtensionConfig, environmentName: string)
    requires environmentName != ""
    requires forall j | 0 <= j < |c.environments| :: c.environments[j].name != environmentName
    ensures EnvironmentVariables(c, environmentName) == []
  {
  }

  class ConfigManager {
    var config: ExtensionConfig

    constructor()
      ensures config == DefaultConfig
    {
      config := DefaultConfig;
    }

    /** getEnvironment: the first environment with exactly that name. */
    function GetEnvironment(name: string): (r: Option<Environment>)
      reads this
      ensures r.Some? ==> r.value in config.environments && r.value.name == name
      ensures r.None? <==> forall j | 0 <= j < |config.environments| :: config.environments[j].name != name
    {
      EnvironmentNamed(config, name)
    }

    /** getUser: the first user profile with exactly that name. */
    function GetUser(name: string): (r: Option<UserProfile>)
      reads this
      ensures r.Some? ==> r.value in config.users && r.value.name == name
      ensures r.None? <==> forall j | 0 <= j < |config.users| :: config.users[j].name != name
    {
      UserNamed(config, name)
    }

    /** getLocale: the first locale settings with exactly that locale. */
    function GetLocale(locale: string): (r: Option<LocaleSettings>)
      reads this
      ensures r.Some? ==> r.value in config.locales && r.value.locale == locale
      ensures r.None? <==> forall j | 0 <= j < |config.locales| :: config.locales[j].locale != locale
    {
      Find(config.locales, (l: LocaleSettings) => l.locale == locale)
    }

    /** getMergedVariables: a fresh dictionary filled from the selected
        environment, then from the selected user. */
    method GetMergedVariables(environmentName: string, userName: string) returns (variables: Dict)
      ensures variables == MergedVariables(config, environmentName, userName)
    {
      variables := [];
      var environment: Option<Environment> := None;
      if environmentName != "" {
        environment := GetEnvironment(environmentName);
      } else if config.defaultEnvironment != "" {
        environment := GetEnvironment(config.defaultEnvironment);
      }
      if environment.Some? {
        variables := Assign(variables, environment.value.variables);
      }
      var user: Option<UserProfile> := None;
      if userName != "" {
        user := GetUser(userName);
      } else if config.defaultUser != "" {
        user := GetUser(config.defaultUser);
      }
      if user.Some? {
        var u := user.value;
        if u.username != "" {
          variables := Put(variables, "username", u.username);
        }
        if u.password != "" {
          variables := Put(variables, "password", u.password);
        }
        if u.token != "" {
          variables := Put(variables, "token", u.token);
        }
        variables := Assign(variables, u.variables);
      }
    }
  }
}
