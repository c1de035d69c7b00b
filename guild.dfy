/**
 * The guild members the commands act on, and the moderator test that
 * gates the moderation commands.
 */
module Guild {
  import opened Wrappers

  /**
   * A guild member as the handlers see it: the numeric id, the account
   * name, the optional server nickname, whether the account is a bot, and
   * the names of the member's roles.
   */
  datatype Member = Member(id: nat, name: string, nick: Option<string>, bot: bool, roles: seq<string>)

  /** The role names that make a member a moderator. */
  const ModeratorRoles: seq<string> := ["Owner", "Co-Owner", "Senior Moderator"]

  /** True when some role name of the member is one of `ModeratorRoles`. */
  function IsModerator(roles: seq<string>): (r: bool)
    ensures r <==> exists i :: 0 <= i < |roles| && roles[i] in ModeratorRoles
    decreases |roles|
  {
    if roles == [] then false
    else roles[0] in ModeratorRoles || IsModerator(roles[1..])
  }

  /** Being a moderator depends only on holding one of the three named roles. */
  lemma ModeratorByName(roles: seq<string>)
    ensures IsModerator(roles) <==>
              "Owner" in roles || "Co-Owner" in roles || "Senior Moderator" in roles
  {
  }
}
