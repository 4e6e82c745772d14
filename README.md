# dragmee, modelled in Dafny

dragmee is a Discord bot with three parts. This project models each of them and proves properties about them.

- **`/dragmee`** (`dragme.py`). A member asks, from the guild's intake channel, to be pulled into another member's voice channel. The bot runs a fixed chain of checks:
  - the command came from the registered intake channel;
  - the bot may move members and connect;
  - both members are in voice, in different channels.

  If every check passes, the bot posts a prompt with Accept and Reject buttons. Only the target may use the buttons. Accept moves the requester into the channel captured when the request was made. Either decision deletes the prompt. After 30 seconds the prompt is edited to say it timed out.
- **`/setup`** (`cogs/setup.py`). An administrator creates the guild's `drag-requests` intake channel. The registry maps each guild id to a channel id, both as decimal strings, and is kept in `request_channels.json`. A stale entry, one naming a channel that no longer exists, is removed and replaced.
- **`/updateavatar` and `/updatebanner`** (`AvatarBannerUpdater.py`). These are owner-only. Both run the same checks in order:
  - the caller is an owner;
  - a 60-second cooldown has passed;
  - the file has an image extension;
  - the file is at most 8 MiB.

  The banner is sent as a base 64 `data:image/gif` URI in a PATCH request. Each command has its own cooldown timestamp, which moves forward only when the update succeeds.

## Layout

- `wrappers.dfy`: `Option`.
- `decimal.dfy`: `str(n)` and `int(s)` on ids, and the round trip between them.
- `base64.dfy`: the standard base 64 encoding (RFC 4648, section 4, with `=` padding). It includes a strict decoder and proofs that the two are inverses in both directions.
- `profile_updater.dfy`: the upload checks, the banner payload and the `AvatarBannerUpdater` class. The class holds the two cooldown timestamps.
- `registry.dfy`: the request-channel registry as a class.
  - `channels` is the in-memory dict.
  - `stored` is the file's contents.
  - `/setup` is a method on that state.
- `dragme.py`'s model lives in `dragme.dfy`:
  - the check chain is a function;
  - the button view is a class whose handlers return the platform effects they cause;
  - a pure `Handle`/`Run` specification describes sequences of clicks and timeouts.

The platform is represented by inputs to the model. Each stands for the result of the real call:
- the caller's permissions;
- the guild's live channels;
- whether a move, reading an attachment, an edit, a channel creation or a file write succeeds;
- the HTTP status;
- the current time in whole seconds.

Sending a reply or a follow-up message is assumed always to succeed. The model has no input for a failed send.

## Where the code and its documentation differ

The model follows the code.

- **No one-shot guarantee for the view.**
  - The button handlers never record a decision and never call `stop()`.
  - A second Accept by the target moves the requester again (`Dragme.MovesMatchTargetAccepts`). On the platform, the first Accept deletes the prompt and its buttons, so a second click can only arrive by racing that deletion.
  - The timeout still fires after a decision and edits the prompt that the decision deleted (`Dragme.DecisionsAreNotFinal`).
- **No self-healing in `/dragmee`.** `/dragmee` only reads the registry (`dragme.py:80`). Only `/setup` removes stale entries.
- **A non-numeric stored id.**
  - In `/dragmee` it raises inside the command, and the error handler answers "unexpected error" (`Refused(UnexpectedError)`).
  - In `/setup` the `int()` at `cogs/setup.py:63` is outside every `try`. The command ends with no reply and no change (`Crashed`).
- **The shared registry.** `dragme.py` imports `request_channels` by name. `cogs/setup.py` rebinds that global when it loads. The start-up script loads the setup cog first, so the name `dragme.py` imports is the loaded dict. Later `/setup` calls mutate it in place.

## Model

| member | source | states |
|---|---|---|
| Decimal.NatToString | cogs/setup.py:88 | `str(id)` is a non-empty string of digits with no leading zero |
| Decimal.ParseIntOfNatToString | dragme.py:83 | `int(str(n)) == n` for every id |
| Decimal.NatToStringInjective | cogs/setup.py:58 | distinct guild ids give distinct registry keys |
| Decimal.ParseInt | cogs/setup.py:63 | `int(s)` succeeds iff `s` is at least one ASCII digit, optionally after a `+` or `-`; the value is that of the digits, negated after `-` |
| Base64.Encode | AvatarBannerUpdater.py:99 | the encoding of n bytes is 4·⌈n/3⌉ characters long |
| Base64.DecodeEncode | AvatarBannerUpdater.py:99 | decoding the encoding of any bytes gives back exactly those bytes |
| Base64.EncodeDecode | AvatarBannerUpdater.py:99 | every string the strict decoder accepts is the encoding of what it decodes to, so the encoding is one-to-one and onto the valid strings |
| Base64.EncodeAlphabet | AvatarBannerUpdater.py:99 | the encoding uses only the 64 alphabet characters, and `=` appears only as padding in the last two positions |
| Base64.CharOfIsAlphabet | AvatarBannerUpdater.py:99 | each 6-bit value maps to the character at that index of the standard alphabet |
| ProfileUpdater.CheckUpload | AvatarBannerUpdater.py:38-54 | the upload passes iff the caller is an owner, the cooldown is over, the name has an image extension and the size is at most 8 MiB; each refusal holds only when the earlier checks passed; a cooldown refusal names a wait after which, and not one second before, the cooldown is over |
| ProfileUpdater.Lower | AvatarBannerUpdater.py:48 | lower-casing keeps the length, leaves no upper-case ASCII letter, keeps every other character and maps each upper-case letter to its lower-case form |
| ProfileUpdater.LowerIdempotent | AvatarBannerUpdater.py:48 | lower-casing twice is lower-casing once |
| ProfileUpdater.EndsWithAny | AvatarBannerUpdater.py:48 | `endswith` with a tuple, tried suffix by suffix, is true iff some suffix in the tuple ends the string |
| ProfileUpdater.HasImageExtensionIgnoresCase | AvatarBannerUpdater.py:48 | the file-type check gives the same answer for a name and its lower-cased form |
| ProfileUpdater.HasImageExtensionIffImageType | AvatarBannerUpdater.py:48 | the case-insensitive suffix check accepts a name iff the text after its last dot is png, jpg, jpeg, gif or webp |
| ProfileUpdater.ImmediateRetryWaitsFullWindow | AvatarBannerUpdater.py:43-46 | a retry in the same second as the last update is told to wait the full 60 seconds |
| ProfileUpdater.SizeLimitIsInclusive | AvatarBannerUpdater.py:52-54 | exactly 8 MiB is accepted and one byte more is refused |
| ProfileUpdater.BannerPayload | AvatarBannerUpdater.py:98-102 | the banner field starts with the `data:image/gif;base64,` prefix and has the length of the prefix plus the encoded image |
| ProfileUpdater.BannerPayloadDecodes | AvatarBannerUpdater.py:98-102 | stripping the prefix and decoding gives back exactly the uploaded bytes |
| ProfileUpdater.OnlyOwnersPass | AvatarBannerUpdater.py:31-40 | an upload is refused as not-owner iff the caller's id is not among the configured owner ids |
| ProfileUpdater.AvatarBannerUpdater.constructor | AvatarBannerUpdater.py:23-28 | both cooldown timestamps start at 0, and the owner set is the one given |
| ProfileUpdater.AvatarBannerUpdater.UpdateAvatar | AvatarBannerUpdater.py:36-70 | a refused check is answered with its reason; a passed check updates iff the edit succeeds; the avatar timestamp becomes `now` exactly when the update succeeded |
| ProfileUpdater.AvatarBannerUpdater.UpdateBanner | AvatarBannerUpdater.py:73-130 | a refused check sends nothing; a failed read of the attachment, and after it a missing token, fail without a request; otherwise the request carries the banner payload, status 200 means success, other statuses and client errors are failures; the banner timestamp moves only on success |
| Registry.LoadedFrom | cogs/setup.py:14-27 | a missing or undecodable file gives an empty registry, a decoded file gives its map |
| Registry.GuildKey | cogs/setup.py:58 | a guild's key is a string of digits that `int()` reads back as the guild id |
| Registry.Inspect | cogs/setup.py:61-64 | an entry is absent iff the guild has no key, unreadable iff `int()` refuses it, live only when its id is one of the guild's channels, stale only when it parses to an id the guild no longer has |
| Registry.RegisteredChannelFoundLive | cogs/setup.py:61-88 | the entry written for a new channel is found live for as long as that channel exists |
| Registry.RequestChannels.constructor | cogs/setup.py:12 | the registry starts empty, before the file is loaded |
| Registry.RequestChannels.Load | cogs/setup.py:14-27 | the in-memory registry becomes what the file holds, or empty |
| Registry.RequestChannels.Save | cogs/setup.py:29-37 | a successful write stores the whole registry; a failed one leaves the file as it was |
| Registry.RequestChannels.Setup | cogs/setup.py:49-106 | per case: non-admins change nothing; a live entry is reported and kept; an unreadable entry ends the command with no change; a stale entry is removed and saved before the manage-channels check; a created channel is registered under the guild's key and saved; failed creations leave only the stale-entry removal; each of the two saves reaches the file or not on its own, so the file can hold the removal without the new entry |
| Registry.SaveThenLoad | cogs/setup.py:14-37 | after a successful save, loading leaves the in-memory registry as it was, and the file holds it |
| Registry.SetupTwice | cogs/setup.py:61-89 | a second `/setup` after a successful one reports the channel the first created and leaves the registry as the first left it |
| Dragme.CheckRequest | dragme.py:65-114 | a request is approved iff it comes from the registered intake channel, the bot can move and connect, and both users are in different voice channels; the target's channel is the one captured; each refusal holds only when the earlier checks passed; an unreadable stored id is an unexpected error |
| Dragme.Handle | dragme.py:23-57 | every effect moves only the requester into the captured channel and touches only the prompt; a click by anyone but the target gets only the private not-authorised notice for that button; a timeout expires the prompt when there is one |
| Dragme.HandleMoves | dragme.py:25-39 | one event attempts a move iff it is the target's Accept |
| Dragme.RunWellAddressed | dragme.py:29-57 | over any sequence of clicks and timeouts, only the requester is moved, only into the captured channel, and only the prompt is deleted or edited |
| Dragme.MovesMatchTargetAccepts | dragme.py:22-39 | the number of moves equals the number of Accept clicks by the target |
| Dragme.DecisionsAreNotFinal | dragme.py:37-57 | a timeout after an accept still edits the deleted prompt, and two accepts move the requester twice |
| Dragme.DragmeButtons.constructor | dragme.py:12-20 | the view captures target, requester and channel, times out after 30 seconds, and has no request message yet |
| Dragme.DragmeButtons.AcceptButton | dragme.py:23-39 | the Accept handler does what `Handle` says for an Accept click on the view's current fields |
| Dragme.DragmeButtons.RejectButton | dragme.py:42-52 | the Reject handler does what `Handle` says for a Reject click |
| Dragme.DragmeButtons.OnTimeout | dragme.py:54-57 | the timeout handler does what `Handle` says for a timeout |
| Dragme.DragmeCommand | dragme.py:77-129 | the decision is `CheckRequest` on the current registry; a refusal is one private reply and no view; an approval acknowledges privately, posts the prompt and returns a new view holding the requester, the target, the target's channel and the prompt |
| Dragme.AcceptedRequestMovesRequester | dragme.py:80-129 | a request from a registered intake channel between two different voice channels is approved, and the target's Accept moves the requester there, announces it and deletes the prompt |
| Dragme.FailedMoveStillClosesPrompt | dragme.py:29-39 | a failed move is announced as an error and the prompt is still deleted |
| Dragme.RejectClosesPrompt | dragme.py:42-52 | the target's Reject publicly announces that the requester's request was rejected, then deletes the prompt |
| Dragme.DecisionClosesPrompt | dragme.py:37-52 | whether the target accepts or rejects, the last thing done is deleting the prompt, when one is set |

## Left out

- `main.py`: loading the token, the intents, loading the cogs and syncing the command tree. This is start-up plumbing. Its only effect on the model is the load order described above.
- The platform and network calls: `move_to`, reading an attachment, `edit`, `create_text_channel`, `get_channel` and the HTTP PATCH. Each is an input standing for its result. Sending replies and follow-ups is assumed to succeed, and no input stands for a failed send. The text of every message is left out. Messages are named by the `Notice` and `Outcome` constructors.
- JSON encoding: the file is modelled as absent, undecodable or a decoded string-to-string map. JSON values that are not strings are not modelled. Neither is a write that fails half-way.
- The `commands.cooldown` decorator on `/dragmee` and the cooldown branch of its error handler. It is a decorator for prefix commands, and application commands do not consult it. Only the handler's unexpected-error reply is modelled.
- The timer and concurrency of the view: when the timeout fires relative to clicks, and two clicks racing. Events are modelled as a sequence handled one at a time.
- The failure of `request_message.delete()` or `edit()` on a message that is already gone. These are modelled as effects, not as exceptions.
- ProfileUpdater.AvatarBannerUpdater.UpdateAvatar: does not model errors other than HTTP errors from reading or editing. Those escape the handler, so the command sends no follow-up.
- ProfileUpdater.AvatarBannerUpdater.UpdateAvatar: assumes the success follow-up is delivered. In the source the timestamp is set only after that follow-up, so if it raises, the avatar has changed but the cooldown has not started. The model starts it.
- ProfileUpdater.AvatarBannerUpdater.UpdateBanner: assumes the success follow-up is delivered. In the source the timestamp is set only after that follow-up, so if it raises, the banner has changed but the cooldown has not started. The model starts it.
- ProfileUpdater.CheckUpload: time is whole seconds, not `time.time()` floats, so the `int()` truncation of the wait is exact here.
- ProfileUpdater.Lower: lower-cases ASCII letters only, not the full Unicode case mapping of `str.lower()`.
- Decimal.ParseInt: accepts an optional sign and ASCII digits. It does not model the surrounding whitespace, underscores or non-ASCII digits that Python's `int()` also accepts.
- Logging and the log files.
