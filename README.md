# Chat room coordinator (irc/server/index.js), modelled in Dafny

The chat server keeps its state in four module-level dictionaries:

- `users`: connection id to display name;
- `rooms`: room name to `{owner, members, active, lastUpdated}`;
- `roomMessages`: room name to an array of `{roomName, message}`;
- `roomUsers`: room name to a presence list.

The socket handlers (`register`, `user`, `create_room`, `modify_room`, `delete_room`,
`refresh_all_rooms`, `join_room`, `join_r`, `leave_room`, `send_message`, `disconnect`)
change that state in place. So do the helpers `addNewMessageToRooms` and
`updateRoomUsers`, and the idle sweep `checkInactiveRooms`. The `/api/rooms` query
filters the active rooms.

The model is the class `ChatServer.Coordinator`. Each dictionary is a field, each
handler and helper is a method run to completion, and the loops are `while` loops with
invariants.

- **History arrays.** A history array is a shared object. After `modify_room`, two keys
  of `roomMessages` refer to the same array. A push through one key shows under the
  other, and a loop over the keys reaches that array twice. The model keeps every array
  the server created in the field `arrays`, in creation order. A key of `roomMessages`
  holds the index of its array, so aliasing is two keys with the same index, and a new
  `[]` is a new index.
- **Loops.** The loops over keys are specified by folds over the keys
  (`Histories.NoticeFold`, `Histories.RewriteFold`, `Reaper.ReapAll`). Lemmas say what
  those folds do to the history under each key (`ChatState.NoticeLog`,
  `ChatState.RewriteAll`).
- **Iteration order.** The order in which `for…in` visits keys is a parameter of each
  looping method. It must list every key.
- **Time.** The time `Date.now()` returns is the parameter `now`.
- **Unregistered callers.** A caller who never registered appears as "undefined" in the
  create, rename-room, delete, join and leave notices, as JavaScript string concatenation
  prints it. An unregistered member is `None` in a presence list.

Modules:

- `JsString`: `indexOf` and `String.prototype.replace` with a string pattern. Only the
  first occurrence is replaced, and `$$`, `$&`, `` $` `` and `$'` are expanded.
- `ChatState`: the state as values, the notice texts, member lists, presence lists, the
  active-room query, and the per-key meaning of the notice broadcast and the username
  rewrite.
- `Histories`: the broadcast and the rewrite as folds over the table of arrays, and
  their link to the per-key meaning.
- `Reaper`: the idle sweep as a fold over the rooms, and what it guarantees.
- `ChatServer`: the coordinator class.
- `Scenarios`: concrete runs showing behaviour the handlers have as written.

The model follows the code as written. In particular:

- `create_room` does not add the owner to `members`. The owner only joins the broadcast
  group.
- `join_room` and `join_r` push the caller even if it is already a member, so member
  lists can hold duplicates. `leave_room` and `disconnect` remove every occurrence.
- `modify_room` does not move the history. The new key refers to the same array as the
  old one, and `roomMessages[old]` is never deleted. With `newRoomName == roomName` the
  room is removed outright.
- The sweep timer fires every `60 * 100` = 6000 ms, not once a minute. The idle limit is
  `2 * 60 * 1000` ms.
- The username rewrite is a plain first-substring replacement in every stored message. It
  is applied once per key that reaches an array, so a shared array is rewritten twice:
  `bob` renamed to `bobby` becomes `bobbyby`.

## Model

| member | source | states |
|---|---|---|
| JsString.IndexFrom | irc/server/index.js:94 | The result is the first index at or after `from` where the pattern occurs, or -1 when it occurs nowhere from there. |
| JsString.ExpandLiteral | irc/server/index.js:94 | A replacement string without `$` is inserted verbatim. |
| JsString.ReplaceFirstAbsent | irc/server/index.js:94 | A message in which the old name does not occur is left unchanged by the rewrite. |
| JsString.ReplaceFirstAt | irc/server/index.js:94 | With a `$`-free replacement, exactly the first occurrence of the pattern is replaced and the rest of the text is kept. |
| JsString.ReplaceFirstTwice | irc/server/index.js:94 | Replacing "bob" by "bobby" gives "bobby" once and "bobbyby" twice, so the rewrite is not idempotent. |
| JsString.Expand | irc/server/index.js:94 | The replacement text `replace` inserts for one match of a string pattern: `$$`, `$&`, `` $` `` and `$'` are expanded and every other character is copied (no contract; `ExpandLiteral` gives the `$`-free case). |
| JsString.ReplaceFirst | irc/server/index.js:94 | `msg.message.replace(last, nv)`: the first occurrence of the pattern becomes the expanded replacement (no contract; `ReplaceFirstAt` and `ReplaceFirstAbsent` state its meaning). |
| ChatState.CreatedText | irc/server/index.js:113 | The creation notice text (no contract). |
| ChatState.RenamedRoomText | irc/server/index.js:128 | The room-rename notice text (no contract). |
| ChatState.DeletedText | irc/server/index.js:142 | The deletion notice text (no contract). |
| ChatState.JoinedText | irc/server/index.js:162 | The join notice text (no contract). |
| ChatState.LeftText | irc/server/index.js:184 | The leave notice text (no contract). |
| ChatState.RenamedUserText | irc/server/index.js:98 | The username-change notice text (no contract). |
| ChatState.ExpiredText | irc/server/index.js:55 | The expiry notice text (no contract). |
| ChatState.NameOf | irc/server/index.js:113 | `users[socket.id]` inside a notice string: the registered name, or "undefined" for a caller who never registered. This holds in the create, rename-room, delete, join and leave notices (lines 113, 128, 142, 162 and 184) (no contract). |
| ChatState.Lookup | irc/server/index.js:40 | `users[memberId]` in a presence list: the registered name, or `None` (JavaScript `undefined`) for an unregistered member (no contract). |
| ChatState.Mentions | irc/server/index.js:32 | `.some(msg => msg.message === newMessage)`: some entry of the history has exactly this text (no contract; `MentionsOccurrences` and `MentionsPrefix` state its meaning). |
| ChatState.RewriteMessage | irc/server/index.js:94 | `msg.message = msg.message.replace(last, nv)` on one entry: the text goes through `ReplaceFirst`, and the room name is kept (no contract). |
| ChatState.Presence | irc/server/index.js:40 | The presence list has one entry per member, in member order, and an entry is present exactly when that member has a registered name. |
| ChatState.NoticeLog | irc/server/index.js:29-37 | The broadcast as a per-key definition; it keeps the key set, and `NoticeLogProperties` and `NoticeLogOccurrences` give its meaning. |
| ChatState.Rewritten | irc/server/index.js:93-95 | The `forEach` rewrite keeps the number of entries and each entry's room name; only the texts change. |
| ChatState.RewriteAll | irc/server/index.js:91-97 | The rename loop as a per-key definition; it keeps the key set, and `RewriteAllUnshared` and `RewriteAllShared` give its meaning. |
| Histories.NoticeFold | irc/server/index.js:29-37 | The broadcast loop as a fold over the keys; it keeps the number of arrays, and `NoticeFoldAt` and `NoticeFoldLog` give its meaning. |
| Histories.RewriteFold | irc/server/index.js:91-97 | The rename loop as a fold over the keys; it keeps the number of arrays, and `RewriteFoldAt` and `RewriteFoldLog` give its meaning. |
| Reaper.Expired | irc/server/index.js:50 | The sweep's test: the room is active and more than 120000 ms have passed since `lastUpdated` (no contract). |
| ChatState.Without | irc/server/index.js:185 | Filtering removes every occurrence of the id, keeps every other member with its multiplicity, and leaves a list without the id unchanged. |
| ChatState.WithoutAppend | irc/server/index.js:196 | Filtering distributes over concatenation, so the other members keep their order. |
| ChatState.JoinThenLeave | irc/server/index.js:163 | Leaving after joining removes the appended entry and every earlier one; a non-member who joins and leaves ends where they started. |
| ChatState.ActiveRooms | irc/server/index.js:69 | `/api/rooms` lists a name if and only if it is a room and the room is active; the names come without repeats. |
| ChatState.Noticed | irc/server/index.js:32-33 | After the broadcast reaches a history, the history contains the text. |
| ChatState.MentionsOccurrences | irc/server/index.js:32 | The `some` test holds exactly when at least one entry has the text. |
| ChatState.NoticeLogProperties | irc/server/index.js:29-37 | After `addNewMessageToRooms`, every tracked history contains the text. Each gained at most one entry, at its end, carrying the text. Histories that already held the text are unchanged. |
| ChatState.NoticeLogOccurrences | irc/server/index.js:29-37 | The broadcast adds its text to a history at most once, and only when the history lacked it; no other text's count changes. |
| ChatState.RewriteNShape | irc/server/index.js:93-95 | Rewriting keeps the number of entries and each entry's room name; only texts change. |
| ChatState.CountAliasesUnshared | irc/server/index.js:91-92 | A loop over distinct keys reaches an array that only one key holds exactly once. |
| ChatState.CountAliasesShared | irc/server/index.js:91-92 | A loop over the keys reaches an array that two keys hold at least twice. |
| ChatState.RewriteAllUnshared | irc/server/index.js:91-97 | In an unshared history, the `user` handler replaces the first occurrence of the old name once per message and adds or removes no entry. |
| ChatState.RewriteAllShared | irc/server/index.js:91-97 | A history shared by two keys (after `modify_room`) is rewritten at least twice. |
| Histories.NoticeFoldAt | irc/server/index.js:30-34 | After the broadcast loop, an array carries the notice filed under the first key that reaches it, or is untouched if no key reaches it. |
| Histories.NoticeFoldLog | irc/server/index.js:29-37 | The broadcast loop on the table of arrays does to the history under every key what `NoticeLog` says. |
| Histories.RewriteFoldAt | irc/server/index.js:91-97 | After the rewrite loop, an array has been rewritten once per key that refers to it. |
| Histories.RewriteFoldLog | irc/server/index.js:91-97 | The rewrite loop on the table of arrays does to the history under every key what `RewriteAll` says. |
| Histories.RenameLogs | irc/server/index.js:89-101 | The `user` handler as a whole: each history is rewritten once per key reaching it, then the rename notice is broadcast. |
| Histories.NoticeFoldFresh | irc/server/index.js:112-114 | A key added with a new empty array ends the broadcast holding exactly the one notice, under its own name. |
| Reaper.ReapStep | irc/server/index.js:49-61 | One sweep step keeps every key pointing at an existing array and leaves the number of arrays unchanged. |
| Reaper.ReapAll | irc/server/index.js:47-63 | The whole sweep only removes history keys, never adds them. |
| Reaper.ReapAllRooms | irc/server/index.js:47-63 | After part of the sweep, exactly the visited rooms that were idle have left `rooms`; the others are untouched. |
| Reaper.ReapAllRefs | irc/server/index.js:47-63 | After part of the sweep, a history key is gone exactly when its room was visited and idle; the rest keep their arrays. |
| Reaper.ReapRemovesExactlyIdle | irc/server/index.js:45-64 | The sweep removes exactly the active rooms idle for more than 120000 ms from `rooms` and `roomMessages`; inactive and recent rooms keep their entries. |
| Reaper.ReapStepLog | irc/server/index.js:54-58 | A surviving history either receives that step's expiry broadcast or is unchanged. |
| Reaper.ReapStepPrefix | irc/server/index.js:56 | One sweep step keeps a surviving history's old entries as a prefix. |
| Reaper.ReapAllLogPrefix | irc/server/index.js:45-64 | A history that survives the sweep keeps all its old entries, in order, as a prefix. |
| Reaper.ReapAllLogOnce | irc/server/index.js:45-64 | A surviving history gains each text at most once, and only a text it did not hold. |
| Reaper.ReapAllLogNotices | irc/server/index.js:45-64 | A surviving history contains the expiry notice of every idle room the sweep visited. |
| Reaper.MentionsPrefix | irc/server/index.js:32 | A text present in a history stays present once entries are appended. |
| ChatServer.AllPresence | irc/server/index.js:40 | There is one presence list per room, as long as its member list. |
| ChatServer.Restrict | irc/server/index.js:151-152 | The rooms a loop has reached are exactly the rooms whose names it has listed, unchanged. |
| ChatServer.RestrictAll | irc/server/index.js:151 | A loop listing every room name has reached every room. |
| ChatServer.Leaving | irc/server/index.js:195-196 | `disconnect` changes exactly the rooms listing the caller. In each, the member list becomes the `leave_room` filter of the old one (`Without`), so the caller is gone, and every other field is unchanged. |
| ChatServer.DisconnectKeepsOthers | irc/server/index.js:193-201 | After `disconnect`, every other member of a room keeps its number of entries, and the remaining members keep their order. |
| ChatServer.DisconnectClears | irc/server/index.js:193-201 | After `disconnect` no room lists the caller, so a second `disconnect` changes no room. |
| ChatServer.Coordinator.constructor | irc/server/index.js:23-27 | All four dictionaries start empty. |
| ChatServer.Coordinator.AddNewMessageToRooms | irc/server/index.js:29-37 | Only the history arrays change, as the broadcast fold over the keys; the keys of `roomMessages` are unchanged. |
| ChatServer.Coordinator.UpdateRoomUsers | irc/server/index.js:39-43 | The room's presence list becomes each member's display name, or none for an unregistered id; no other entry changes. |
| ChatServer.Coordinator.SendMessage | irc/server/index.js:74-82 | The payload is appended to the key's array, which is created if the key had none. `lastUpdated` becomes `now`. The handler throws exactly when no room has the name, after the push. |
| ChatServer.Coordinator.Register | irc/server/index.js:84-87 | The caller's display name is bound to the username; nothing else changes. |
| ChatServer.Coordinator.RewriteArray | irc/server/index.js:93-95 | One array has the first occurrence of the old name replaced in every entry; the other arrays are unchanged. |
| ChatServer.Coordinator.RenameUser | irc/server/index.js:89-101 | The caller's name becomes `nv`, and the arrays are the rewrite fold followed by the rename-notice fold (whose meaning `RenameLogs` gives). |
| ChatServer.Coordinator.CreateRoom | irc/server/index.js:103-120 | If the name is free or inactive: a new active room owned by the caller with no members; a new history holding only the creation notice; the notice in every other history; an empty presence list. Otherwise nothing changes. |
| ChatServer.Coordinator.ModifyRoom | irc/server/index.js:122-133 | For the owner: the room record moves to the new key, the old key leaves `rooms`, the new history key shares the old array, and the notice is broadcast. Otherwise nothing changes. |
| ChatServer.Coordinator.DeleteRoom | irc/server/index.js:135-148 | For the owner: the room stays, inactive, with owner and members kept. The notice is broadcast, then the room's key refers to a new empty history. Otherwise nothing changes. |
| ChatServer.Coordinator.RefreshAllRooms | irc/server/index.js:150-157 | Every room's presence list is recomputed from its members; other entries are kept. |
| ChatServer.Coordinator.JoinRoom | irc/server/index.js:159-169 | On an active room: one join notice appended to its history, the caller appended to `members` even if present, `lastUpdated = now`, presence recomputed. Otherwise nothing changes. |
| ChatServer.Coordinator.JoinSilently | irc/server/index.js:171-179 | On an active room: the caller appended to `members` and presence recomputed, with no notice and no timestamp change. Otherwise nothing changes. |
| ChatServer.Coordinator.LeaveRoom | irc/server/index.js:181-191 | On an active room: one leave notice appended, every occurrence of the caller filtered out of `members`, presence recomputed. Otherwise nothing changes. |
| ChatServer.Coordinator.Disconnect | irc/server/index.js:193-201 | The caller is filtered out of exactly the rooms that list it, and their presence lists are recomputed with its name still known. Then its name is forgotten; histories are untouched. |
| ChatServer.Coordinator.Reap | irc/server/index.js:45-64 | The sweep's new state is the fold `ReapAll`. Exactly the idle active rooms leave `rooms`, and their keys leave `roomMessages`. |
| ChatServer.Coordinator.ExpireIfIdle | irc/server/index.js:48-61 | One sweep step: an idle active room is removed from `rooms` and `roomMessages` after its expiry notice is broadcast; otherwise nothing changes. |
| Scenarios.CreatorNotListed | irc/server/index.js:105-110 | After alice creates "lobby" and bob joins, the presence list names bob only. |
| Scenarios.RenameReachesSharedTwice | irc/server/index.js:125-126 | With two keys sharing one array, renaming "bob" to "bobby" leaves "bobbyby" in the shared history. |
| Scenarios.CreatedIsListed | irc/server/index.js:69 | A room just created appears in the `/api/rooms` answer. |
| Scenarios.DeletedIsNotListed | irc/server/index.js:69 | A room just deleted does not appear in the `/api/rooms` answer. |

## Left out

- socket.io delivery is not modelled. This covers `io.emit`, `io.to(...).emit`, `socket.join`, `socket.leave` and the `io.sockets.sockets.get(id).leave` calls in `delete_room` and the sweep. They are a foreign library with fire-and-forget I/O and do not change the four dictionaries.
- The model assumes every member id is a live socket; the `get(...)` call, which would throw otherwise, is left out.
- The Express/HTTP setup, CORS, `server.listen` and the JSON response of `/api/rooms` are not modelled. They are transport; only the filter is modelled.
- `Date.now()` is the parameter `now`.
- `setInterval` is not modelled. The sweep is the method `Reap`, and its period is only the constant `SweepPeriod`.
- `console.log` is not modelled; it is logging only.
- The iteration order of `for…in` is a parameter of each looping method, required to list every key. The language's ordering rules for integer-like keys are not modelled.
- ChatServer.Coordinator.SendMessage: the payload spread `{...data}` is stored as its `roomName` and `message` fields only. Extra fields a client sends are dropped.
- ChatServer.Coordinator.UpdateRoomUsers: requires the room to exist. The source would throw otherwise, but every caller passes an existing room.
- Room names are assumed not to be `Object.prototype` property names (such as `constructor`, `toString`, `hasOwnProperty` or `__proto__`). The four dictionaries are plain objects, and for those names inherited properties change what the handlers do. For example, `create_room("constructor")` does nothing in the source, and `send_message` to `"toString"` throws before it pushes.
- Strings are sequences of Dafny characters, but JavaScript strings are UTF-16 code units; a lone surrogate cannot be represented.
- ChatServer.Coordinator.SendMessage: after `thrown`, the model's state can still be used. In Node, an uncaught exception thrown by a socket.io listener ends the process by default, which loses all in-memory state.
- Concurrency is not modelled. Node runs handlers and the timer on one thread, so each handler is one atomic method.
- The React client under irc/src is not part of this model.
