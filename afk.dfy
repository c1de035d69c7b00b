/**
 * The AFK registry and the nickname tag. `/afk` records the member as
 * away and asks for the nickname `"[AFK] "` followed by their nickname,
 * or by their account name when they have none; the member's next message (unless the author is a bot)
 * removes the record and asks for the tag to be taken off again.
 *
 * Nickname changes are requests to the chat service that may fail and
 * whose failure is ignored, so the registry does not track nicknames:
 * each operation returns the nickname it asks for.
 */
module Afk {
  import opened Wrappers
  import opened Text
  import opened Guild

  /** A UTC instant supplied by the caller. */
  type Instant = int

  /** Why and since when a member is away. */
  datatype AfkEntry = AfkEntry(reason: string, since: Instant)

  /** The reason recorded when `/afk` is given none. */
  const DefaultReason := "AFK"

  /** What `/afk` puts in front of the name. */
  const Tag := "[AFK] "

  /** What a nickname must contain for the tag to be taken off. */
  const Marker := "[AFK]"

  /** Python truthiness of `member.nick`: present and not empty. */
  predicate HasNick(nick: Option<string>) {
    nick.Some? && nick.value != ""
  }

  /**
   * The name `/afk` tags: the nickname if set, else the account name. It is
   * empty only when the account name is.
   */
  function NickOrName(nick: Option<string>, name: string): (r: string)
    ensures r == "" ==> name == ""
  {
    if HasNick(nick) then nick.value else name
  }

  /** The nickname `/afk` asks for; it always starts with the tag and holds the marker. */
  function AfkNick(nick: Option<string>, name: string): (r: string)
    ensures StartsWith(r, Tag) && Contains(r, Marker)
    ensures |r| == |Tag| + |NickOrName(nick, name)|
  {
    var r := Tag + NickOrName(nick, name);
    assert r[..|Marker|] == Marker;
    r
  }

  /**
   * The nickname a returning member's message asks for: every `"[AFK] "`
   * removed, but only when the nickname is set and holds `"[AFK]"`;
   * otherwise no change is asked for.
   */
  function ReturnNick(nick: Option<string>): (r: Option<string>)
    ensures r.Some? <==> HasNick(nick) && Contains(nick.value, Marker)
    ensures r.Some? ==> |r.value| <= |nick.value|
    ensures r.Some? && !Contains(nick.value, Tag) ==> r.value == nick.value
  {
    if HasNick(nick) && Contains(nick.value, Marker) then Some(Replace(nick.value, Tag, ""))
    else None
  }

  /** A tagged nickname always holds the marker, so a returning member is always untagged. */
  lemma AfkNickMarked(nick: Option<string>, name: string)
    ensures Contains(AfkNick(nick, name), Marker)
    ensures ReturnNick(Some(AfkNick(nick, name))).Some?
  {
  }

  /** Removing every tag from `Tag + n` gives back `n` when `n` holds no tag. */
  lemma UntagTagged(n: string)
    requires !Contains(n, Tag)
    ensures Replace(Tag + n, Tag, "") == n
  {
  }

  /**
   * Going away and coming back asks for the nickname the member had, or
   * their account name when they had none, provided that name does not
   * itself hold `"[AFK] "`.
   */
  lemma AfkRoundTrip(nick: Option<string>, name: string)
    requires !Contains(NickOrName(nick, name), Tag)
    ensures ReturnNick(Some(AfkNick(nick, name))) == Some(NickOrName(nick, name))
  {
    AfkNickMarked(nick, name);
    UntagTagged(NickOrName(nick, name));
  }

  /** Running `/afk` twice before returning still asks for the untagged name in one step. */
  lemma AfkTwiceRoundTrip(nick: Option<string>, name: string)
    requires !Contains(NickOrName(nick, name), Tag)
    ensures ReturnNick(Some(AfkNick(Some(AfkNick(nick, name)), name))) == Some(NickOrName(nick, name))
  {
    var n := NickOrName(nick, name);
    var once := AfkNick(nick, name);
    var twice := AfkNick(Some(once), name);
    assert twice == Tag + once;
    AfkNickMarked(Some(once), name);
    assert twice[..|Tag|] == Tag;
    assert twice[|Tag|..] == once;
    UntagTagged(n);
  }

  /** The members currently away, by member id. */
  class AfkRegistry {
    var users: map<nat, AfkEntry>

    constructor ()
      ensures users == map[]
    {
      users := map[];
    }

    /**
     * `/afk reason`: records the invoker as away since `now`, replacing
     * any earlier record, and returns the nickname to ask for.
     */
    method SetAfk(user: Member, reason: Option<string>, now: Instant) returns (nickEdit: string)
      modifies this
      ensures user.id in users && users[user.id] == AfkEntry(reason.GetOr(DefaultReason), now)
      ensures users.Keys == old(users).Keys + {user.id}
      ensures forall id :: id in old(users) && id != user.id ==> users[id] == old(users)[id]
      ensures nickEdit == AfkNick(user.nick, user.name)
    {
      users := users[user.id := AfkEntry(reason.GetOr(DefaultReason), now)];
      if HasNick(user.nick) {
        nickEdit := Tag + user.nick.value;
      } else {
        nickEdit := Tag + user.name;
      }
    }

    /**
     * A message arrives: a non-bot author who is away is welcomed back
     * (`returned`), their record alone is removed, and the nickname to
     * ask for, if any, is returned. Messages from bots, or from members
     * who are not away, change nothing.
     */
    method OnMessage(author: Member) returns (returned: bool, nickEdit: Option<string>)
      modifies this
      ensures returned <==> !author.bot && author.id in old(users)
      ensures users == if returned then old(users) - {author.id} else old(users)
      ensures returned ==> nickEdit == ReturnNick(author.nick)
      ensures !returned ==> nickEdit == None
    {
      returned := false;
      nickEdit := None;
      if author.bot {
        return;
      }
      if author.id in users {
        if HasNick(author.nick) && Contains(author.nick.value, Marker) {
          nickEdit := Some(Replace(author.nick.value, Tag, ""));
        }
        users := users - {author.id};
        returned := true;
      }
    }
  }
}
