/** The enums of app/core/constants.py and the setting values of app/core/config.py that the core uses. */
module Constants {

  datatype UserRole = USER | ADMIN

  datatype OrderDirection = ASC | DESC

  /** How a role is stored in the users.role column (String(16)). */
  function RoleText(r: UserRole): string
  {
    match r
    case USER => "user"
    case ADMIN => "admin"
  }

  const AccessTokenExpireMinutes: nat := 30
  const RefreshTokenExpireDays: nat := 7

  const FirstSuperuser: string := "admin@example.com"
  const FirstSuperuserPassword: string := "changethis"

  const AllowedTags: seq<string> :=
    ["p", "br", "strong", "em", "ul", "ol", "li", "a", "h1", "h2", "h3", "h4", "blockquote", "code", "pre"]
  const AllowedAttributes: map<string, seq<string>> := map["a" := ["href", "title"], "img" := ["alt"]]

  const MaxRequestsPerMinute: int := 60

  /** Seconds in a minute and in a day, for the token lifetimes. */
  const SecondsPerMinute: nat := 60
  const SecondsPerDay: nat := 86400
}
