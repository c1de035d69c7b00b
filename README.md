# Eternal Eclipse moderation bookkeeping, in Dafny

This project models the bookkeeping that the Eternal Eclipse Discord bot
(`main.py`) does inside its command handlers, and proves properties of it:

- **The warnings ledger.** This is the `warnings.json` file: a map from a
  member's id (`str(member.id)`) to that member's warnings, in the order
  they were given. Each warning is a record of reason, issuing moderator
  and time. `/warn` appends one record and creates the entry if it is
  missing. `/clearwarn` replaces the entry with the empty list.
  `/warnings` shows a numbered listing, or `No warnings.` when the member
  has no warnings. Each command loads the whole map and, if it changes
  something, saves the whole map back. The file is the `contents` field of
  the class `Warnings.WarningsFile`.
- **The AFK registry.** This is `afk_users`, the field `users` of
  `Afk.AfkRegistry`. `/afk` records the member as away, replacing any
  earlier record, and asks for the nickname `[AFK] ` plus the member's
  nickname, or plus their account name when they have no nickname. The next message from that member (bot authors are ignored)
  removes exactly that member's record. It also asks for every `[AFK] ` to
  be removed from the nickname, but only when the nickname holds `[AFK]`.
- **The moderator test.** `is_moderator` holds when one of the member's
  role names is `Owner`, `Co-Owner` or `Senior Moderator`. The three
  ledger commands are limited to those roles by
  `app_commands.checks.has_any_roles(*MODERATOR_ROLES)`. The model gives
  each of them the invoker's role names and lets it act only when
  `IsModerator` holds. Otherwise it returns `ok == false` and nothing
  changes.

Modules:

- `Wrappers`: `Option`.
- `Text`: the Python string operations used: `str(n)`, `sep.join`, `in` and
  `str.replace`. `str.split` is added as the inverse of `join`, to state
  what a listing contains.
- `Guild`: the member record and the moderator test.
- `Warnings`: the ledger functions, the listing, and the file class.
- `Afk`: the nickname functions and the registry class.

The ledger and registry operations are methods on classes, because the
handlers change the loaded dictionary and the global `afk_users` in place.
Each method's `ensures` gives the whole new state. The listing, the
nickname transforms and the moderator test are pure expressions in the
source, so the model writes them as functions and proves lemmas about them.

`main.py` has no case ids, no escalation thresholds, no timed or
self-reversing mutes and no protected roles, so the model has none either.

Caller-supplied values:

- Timestamps are supplied by the caller. A warning stores the string
  `str(datetime.utcnow())`; an AFK record stores an `Instant`.
- Optional command arguments are `Option`s. For `/warn` the default is
  `No reason provided`; for `/afk` it is `AFK`.
- Nickname edits go to the chat service inside `try/except: pass`, so they
  may fail unnoticed. The model therefore does not track nicknames. The
  operations return the nickname they ask for.

## Model

| member | source | states |
|---|---|---|
| `Text.NatToString` | main.py:225 | `str(n)` is a non-empty string of decimal digits with no leading zero |
| `Text.NatToStringRoundTrip` | main.py:206 | reading `str(n)` back as a number gives `n` |
| `Text.NatToStringInjective` | main.py:206 | `str(a) == str(b)` exactly when `a == b` |
| `Text.Join` | main.py:225 | a join of at least one part starts with the first part |
| `Text.Split` | main.py:225 | a split always has at least one part, and no part holds the separator |
| `Text.SplitJoin` | main.py:225 | splitting a join on its separator gives back the parts, when no part holds the separator |
| `Text.Contains` | main.py:127 | substring `p in s`; it can hold only when `p` is no longer than `s` |
| `Text.ContainsAt` | main.py:127 | substring `p in s` holds exactly when some window of `s` equals `p` |
| `Text.Replace` | main.py:128 | `s.replace(pat, rep)` leaves `s` unchanged when `pat` does not occur in it, and never lengthens `s` when `rep` is no longer than `pat` |
| `Guild.IsModerator` | main.py:140-141 | true exactly when some role name of the member is in `["Owner", "Co-Owner", "Senior Moderator"]` |
| `Guild.ModeratorByName` | main.py:45 | being a moderator is the same as holding a role named `Owner`, `Co-Owner` or `Senior Moderator` |
| `Warnings.Key` | main.py:206 | the key `str(member.id)` is a digit string that reads back as the member's id |
| `Warnings.KeyInjective` | main.py:206 | two members share a ledger key only if they have the same id |
| `Warnings.Get` | main.py:221 | `warnings.get(member_id, [])` is empty exactly when the key is missing or maps to an empty list; otherwise it is that list |
| `Warnings.Warned` | main.py:207-209 | a warning creates the entry if it is missing (then it is `[w]`). The entry grows by exactly one, with `w` last and the old list as a prefix. No other entry changes and no other key appears |
| `Warnings.Cleared` | main.py:236 | after a clear the key is present and maps to the empty list, whatever it held. No other entry changes |
| `Warnings.ClearedIdempotent` | main.py:236 | clearing twice gives the same ledger as clearing once |
| `Warnings.WarnedAllAppends` | main.py:207-209 | successive warnings for a key accumulate in the order given, and every other key is unaffected |
| `Warnings.ClearAfterWarnings` | main.py:234-237 | clearing after any warnings empties the entry; warnings after a clear are exactly the new ones |
| `Warnings.Line` | main.py:225 | the f-string `"<n>. <reason> (by <@<by>>)"` starts with a digit and holds a line break only if the reason does |
| `Warnings.Numbered` | main.py:225 | the enumerated lines: one per warning, line `i` being `Line(from + i, ws[i])` |
| `Warnings.Listing` | main.py:221-225 | the listing is `No warnings.` exactly when the member has no warnings |
| `Warnings.ListingLines` | main.py:225 | a non-empty listing splits on `\n` into one line per warning. The line for `ws[i]` is `"<i+1>. <reason> (by <@<by>>)"`, in append order. This needs that no reason holds a line break |
| `Warnings.WarningsFile.constructor` | main.py:50-53 | the file starts with the stored map; a freshly created file holds `{}` |
| `Warnings.WarningsFile.Load` | main.py:55-57 | loading returns the whole stored map |
| `Warnings.WarningsFile.Save` | main.py:59-61 | saving replaces the whole stored map |
| `Warnings.WarningsFile.Warn` | main.py:201-210 | a moderator's `/warn` stores `Warned(old, str(member.id), {reason or default, invoker id, time})`. Anyone else's changes nothing |
| `Warnings.WarningsFile.WarningsCmd` | main.py:215-225 | a moderator's `/warnings` returns the listing of `warnings.get(str(member.id), [])`. It is `No warnings.` exactly when that list is empty, and the file is not changed |
| `Warnings.WarningsFile.ClearWarn` | main.py:230-237 | a moderator's `/clearwarn` stores `Cleared(old, str(member.id))`. Anyone else's changes nothing |
| `Afk.NickOrName` | main.py:152-155 | the name `/afk` tags: the nickname if set, else the account name; it is empty only if the account name is |
| `Afk.AfkNick` | main.py:152-155 | the nickname `/afk` asks for starts with `[AFK] ` and always holds `[AFK]`, and is exactly the tag longer than the tagged name |
| `Afk.ReturnNick` | main.py:127-128 | an edit is asked for exactly when the nickname is set and holds `[AFK]`. The result is never longer, and a nickname without `[AFK] ` is asked to stay as it is |
| `Afk.AfkNickMarked` | main.py:127 | a nickname tagged by `/afk` always holds `[AFK]`, so a returning member's tag is always taken off |
| `Afk.UntagTagged` | main.py:128 | removing every `[AFK] ` from `"[AFK] " + n` gives `n` when `n` holds no `[AFK] ` |
| `Afk.AfkRoundTrip` | main.py:127-155 | after `/afk` and a message, the nickname asked for is the member's earlier nickname, or their account name if they had none. This holds when that name holds no `[AFK] ` |
| `Afk.AfkTwiceRoundTrip` | main.py:127-155 | after `/afk` twice and then one message, the nickname asked for is still the earlier nickname, or the account name if there was none |
| `Afk.AfkRegistry.constructor` | main.py:31 | the registry starts empty |
| `Afk.AfkRegistry.SetAfk` | main.py:146-155 | `/afk` maps the invoker to `(reason or "AFK", now)` and replaces any earlier entry. Other entries are unchanged. It asks for `"[AFK] " + nick` if a nickname is set, else `"[AFK] " + name` |
| `Afk.AfkRegistry.OnMessage` | main.py:119-135 | a message from a non-bot author who is away removes exactly that author's entry and asks for `ReturnNick(nick)`. Messages from bots, or from members who are not away, change nothing and ask for nothing |

## Left out

- The Discord effects of `/kick`, `/ban`, `/mute` and `/unmute`: the `kick`, `ban`, `add_roles` and `remove_roles` calls. These are calls into the chat service with no state kept by the bot.
- Replies, the "welcome back" message, the welcome and leave embeds, and the `/embed` and `/sendmsg` commands. These are presentation only; `OnMessage` reports by `returned` whether the welcome-back message is sent.
- `on_ready` and its command-tree sync, the Flask uptime server and its thread, the logging setup, and `bot.run`. These are process I/O and concurrency.
- JSON encoding and the create-if-missing check on `warnings.json`. The file is an abstract map loaded and saved whole; a freshly created file is `WarningsFile` constructed with `map[]`.
- Interleaving of the async handlers between load and save. Each command is modelled as one atomic step.
- `datetime.utcnow()`. The time is a value supplied by the caller.
- The error reply of the `has_any_roles` gate on `/warn`, `/warnings` and `/clearwarn`, and its refusal outside a guild. The gate is modelled as `IsModerator(invoker.roles)`, which is how it compares role names, and a refused command changes nothing.
- Whether a nickname edit succeeds. The source ignores its failure, and the registry entry is removed either way, as in the source.
- `bot.process_commands(message)` at the end of `on_message`. This is command dispatch inside the chat library.
- Global display names. With no nickname, `/afk` tags the account name (`user.name`), not the name the member is shown under (`member.display_name`, main.py:226), which can be a global display name. So a member without a nickname who returns is asked to take their account name as nickname. The model follows the code here and does not represent global display names.
