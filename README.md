# feo-ideas-bot in Dafny

A model of the decision logic of the two scripts of feo-ideas-bot. The
scripts collect ideas that users send to a Telegram bot.

- `bot.py` is a long-polling relay. It sends each private message a welcome
  and forwards it to an administrator chat. A per-user anti-flood limiter
  sits in front of that. Every platform call goes through a retry wrapper
  with exponential backoff.
- `bot_poller.py` is a one-shot poller. It keeps a cursor in a file and
  turns each new update into an issue in the issue tracker. It then replies
  to the sender with the issue number.

Network calls, the clock and the cursor file are inputs and outputs of the
model; nothing is performed.

- An HTTP call is an abstract outcome: an exception, or a status with a
  decoded body.
- A clock reading is a `real` parameter.
- A sleep of the getUpdates call and of the relay loop is recorded as its
  length, in a list; the outbound calls are recorded as the calls attempted.
- The cursor file is its content, going in and coming out.

Modules:

- `Wrappers`: `Option` and `Result`.
- `Updates`: the update, message, chat and user records both scripts read. A
  key that is absent (or JSON null) is `None`.
- `Retry`: `tg_call`.
  - The pure function `Call` gives the schedule of attempts and sleeps for a
    given sequence of three attempt outcomes.
  - The method `TgCall` is the loop, proved equal to `Call`.
- `AntiFlood`: `anti_flood_check`.
  - The function `Step` maps the two tables (`_user_msgs`, `_user_cooldown`)
    and a clock reading to a verdict and the new tables.
  - The class `Limiter` holds the tables as fields. Its method `Check`
    updates them in place, with the eviction loop over the user's queue.
  - The invariant `Inv` says each queue is sorted, has no entry later than
    the newest clock reading, spans at most 60 s and holds at most 6
    entries. It also ties a full queue to its cooldown. Every check keeps
    it.
- `Relay`: the rest of `bot.py`.
  - `message_type` and `is_private_chat`.
  - The calls `handle_update` attempts.
  - The per-update isolation of the main loop.
  - The getUpdates payload and offset, and one iteration of `main`
    (`PollOnce`).
- `PyStr`: the Python string and integer behaviour the poller depends on:
  `strip()`, `split("\n", 1)[0]`, `" ".join`, `str(n)` and `int(s)`.
- `Poller`: `bot_poller.py`.
  - The `get_updates` parameters.
  - The user name, text, snippet and title derivation.
  - The issue-then-reply effects of `process_updates` and its max-id scan.
  - The cursor logic of `main`.

Two points of the code that the model keeps as written:

- `tg_get_updates` (bot.py:76) takes the id of the last element of the
  batch, not the largest one. A last element without an id raises, which
  the loop catches and follows with a sleep. `Relay.NewOffsetBounds` shows
  that the last id and the largest id agree when the ids are in order.
- The poller's first run counts a missing `update_id` as 0
  (`u.get("update_id", 0)`). `process_updates` ignores missing ids. Both are
  modelled as written.

## Model

| member | source | states |
|---|---|---|
| Retry.Judge | bot.py:50-60 | an attempt succeeds exactly when it answered HTTP 200 with `ok` true, and then it yields that body; a non-200 status fails with that status |
| Retry.Wait | bot.py:63 | the first wait is 1.5 s and each further one is twice the one before |
| Retry.CallFrom | bot.py:48-67 | at most RETRIES attempts; every attempt before the last one made failed; the result is the last attempt's; a failure means all RETRIES were used; a sleep follows every failed attempt except the final one |
| Retry.Call | bot.py:45-67 | between 1 and 3 attempts are made, the result is the verdict on the last one made, and there is one sleep between consecutive attempts and none after the last |
| Retry.FirstSuccessReturned | bot.py:48-60 | when attempt k is the first success, the call returns its body after k+1 attempts and k sleeps 1.5 * 2^i |
| Retry.AllFailed | bot.py:61-67 | when all attempts fail, exactly 3 are made, the last failure is raised and the sleeps are exactly [1.5, 3.0] |
| Retry.TotalBackoff | bot.py:63-66 | the first n waits add up to 1.5 * (2^n - 1) |
| Retry.TgCall | bot.py:45-67 | the loop with `last_exc` returns the result, attempt count and sleeps of the schedule `Call` |
| AntiFlood.EvictSuffix | bot.py:102-103 | eviction leaves a suffix of the queue whose first entry is within 60 s; every dropped entry is more than 60 s old |
| AntiFlood.EvictAppended | bot.py:100-103 | appending now and evicting keeps a suffix of the old queue followed by now: the leading entries dropped are all more than 60 s old, and the first one kept is not (on a sorted queue these are exactly the old entries, by `EvictIsRecent`) |
| AntiFlood.Step | bot.py:91-109 | a check denies exactly when it carries a warning; it leaves every other user's queue and cooldown as they were, and changes the user's own cooldown only on a denial, to now + 120 |
| AntiFlood.EvictIsRecent | bot.py:102-103 | on a sorted queue, popping from the front equals filtering out every entry more than 60 s old |
| AntiFlood.CooldownDenies | bot.py:96-98 | during an active cooldown the check denies with the "try later" text and changes neither table |
| AntiFlood.DisabledAllows | bot.py:92-93 | with the limiter disabled the check allows with no message and changes no state |
| AntiFlood.WindowAfterCheck | bot.py:100-103 | outside cooldown the user's new queue is non-empty, sorted, ends with now, lies within [now-60, now] and keeps the old entries exactly 60 s old |
| AntiFlood.ThresholdIff | bot.py:105-109 | outside cooldown the check is denied exactly when more than FLOOD_N = 5 readings lie in the window; a denial carries the "too many" text and sets the cooldown to now + 120, an allow leaves the cooldown table alone |
| AntiFlood.ExpiredCooldownAllows | bot.py:96-109 | on tables that satisfy the invariant, once a user's cooldown has expired and the user has recorded nothing since it was set, the user's next check is allowed and the queue holds only now, whatever other users did meanwhile |
| AntiFlood.ExpiredAfterOtherUser | bot.py:96-109 | a user who filled the window at 1..6 s, followed by another user's check at 300 s, is allowed again at 400 s with the queue [400] |
| AntiFlood.FloodBurst | bot.py:100-109 | for a fresh user sending a burst within 60 s, messages 1-5 are allowed, the 6th is denied with "too many" and every later one with "try later" |
| AntiFlood.StepKeepsInv | bot.py:95-109 | every check on a positive, non-decreasing clock keeps the table invariant: queues sorted, within 60 s, at most 6 long, and a full queue has its cooldown set 120 s after its newest entry |
| AntiFlood.Limiter.constructor | bot.py:41-42 | the limiter starts with empty tables, which satisfy the invariant |
| AntiFlood.Limiter.Check | bot.py:91-109 | the in-place check (cooldown lookup, append, `popleft` loop, cooldown write) returns the verdict of `Step` and leaves the tables `Step` computes, keeping the invariant |
| Relay.KindFrom | bot.py:84-88 | the message type is the first present key in the order text, photo, document, voice, video, sticker, and "other" when none is present |
| Relay.MessageTypeCases | bot.py:84-88 | a text message is "text"; a message with none of the six keys is "other" |
| Relay.ForwardIff | bot.py:141-160 | a message is forwarded to the administrator exactly when it was allowed and both its chat id and message id are present, whatever happened to the welcome |
| Relay.DeniedOnlyWarns | bot.py:141-148 | a denied message gets only the warning, sent to its own chat |
| Relay.AllowedWelcomeThenForward | bot.py:150-160 | an allowed message gets the welcome first, then the forward |
| Relay.Actions | bot.py:141-160 | no call is made without a chat id; a denied message gets at most one call, the warning to its own chat; an allowed message with a chat id gets the welcome first, at most two calls and never a text |
| Relay.Handle | bot.py:127-141 | an update is ignored exactly when it has no message or its chat is not private, reaches the limiter exactly when it also has a sender id, and otherwise leaves the tables as they were |
| Relay.IgnoredIff | bot.py:128-130 | an update is ignored exactly when it has no message, the message has no chat, or the chat type is not "private" |
| Relay.PassiveNoCalls | bot.py:127-141 | an update without a message or private chat, or without a sender id, makes no call and leaves the limiter's tables unchanged |
| Relay.HandleDuringCooldown | bot.py:127-148 | a private message from a user in cooldown is answered with the "try later" text only and records nothing |
| Relay.HandleUnlimited | bot.py:92-93 | with the limiter switched off every private message with a sender is welcomed and forwarded |
| Relay.Batch | bot.py:169-173 | every update of the batch is handled, in order, one dispatch each |
| Relay.PassiveIsTransparent | bot.py:169-173 | an update that is skipped or whose handling raises changes nothing for the rest of the batch: the others are handled exactly as if it were absent |
| Relay.GetUpdatesPayload | bot.py:71-73 | the payload always has the long-poll timeout 50 and `allowed_updates` ["message"], and has `offset` exactly when there is one |
| Relay.NewOffsetBounds | bot.py:75-76 | an empty batch gives no new offset; on ordered ids the new offset is one past an id of the batch and above every id in it |
| Relay.NewOffset | bot.py:76 | there is no new offset exactly for an empty batch; a last update without an id fails; otherwise the new offset is one past the last update's id |
| Relay.GetUpdates | bot.py:70-77 | a failed call fails the fetch; a missing or empty result is an empty batch with no new offset; a successful fetch returns the call's result list and has a new offset exactly when that is non-empty; the only other failure is a last update without an id |
| Relay.CursorAdvances | bot.py:168-175 | with a batch at or above the current offset, the offset never decreases and strictly increases on a non-empty batch |
| Relay.HandleUpdate | bot.py:127-160 | handling an update against the limiter object gives the dispatch and new tables of `Handle` |
| Relay.PollOnce | bot.py:163-178 | one loop iteration sends the payload for the current offset; a failed fetch keeps the offset, handles nothing and adds the 2 s sleep; otherwise the batch is handled in order against the limiter and the offset moves only to a produced new offset |
| PyStr.StripLeftSpec | bot_poller.py:100 | left stripping keeps the longest suffix not starting with Python whitespace |
| PyStr.StripRightSpec | bot_poller.py:100 | right stripping keeps the longest prefix not ending with Python whitespace |
| PyStr.StripSpec | bot_poller.py:100 | `strip()` yields a slice of the input with only whitespace outside it and no whitespace at either end |
| PyStr.StripEmptyIff | bot_poller.py:87 | the stripped string is empty exactly when the input is all whitespace |
| PyStr.FirstLineSpec | bot_poller.py:100 | `split("\n", 1)[0]` is the prefix before the first line feed, or the whole string |
| PyStr.JoinNonEmptyCases | bot_poller.py:87 | joining the non-empty parts gives "" exactly when every part is empty |
| PyStr.JoinTwo | bot_poller.py:86-87 | two parts join around one space when both are present, otherwise to the present one |
| PyStr.NatToString | bot_poller.py:36 | `str(n)` of a natural number is decimal digits without a leading zero |
| PyStr.NatRoundTrip | bot_poller.py:29-36 | reading the digits of `str(n)` gives back n |
| PyStr.IntRoundTrip | bot_poller.py:29-36 | `int(str(n).strip()) == n` for every integer |
| Poller.GetUpdatesParams | bot_poller.py:39-45 | `limit` is always sent, `offset` exactly when it is not None, `timeout` exactly when it is not 0 |
| Poller.ReadLastUpdate | bot_poller.py:26-31 | a missing cursor file, or one that is empty or all whitespace, reads as no cursor |
| Poller.WriteLastUpdate | bot_poller.py:26-36 | the content a run writes reads back as the same id on the next run |
| Poller.Snippet | bot_poller.py:100 | the snippet is the longest prefix of the stripped text that has no line feed and at most 60 characters: it stops at 60 characters, at the end of the text or just before a line feed |
| Poller.SnippetEmptyIff | bot_poller.py:100 | the snippet is empty exactly when the text is all whitespace |
| Poller.UserName | bot_poller.py:83-87 | the name is never empty; it is the username whenever that is non-empty, and "unknown" when there is no sender, or no username and first and last names that are missing or all whitespace |
| Poller.UserNameFromNames | bot_poller.py:84-87 | without a username, trimmed first and last names are used, joined by one space when both are present |
| Poller.MessageText | bot_poller.py:93 | the text is never empty: `text` when non-empty, else `caption` when non-empty, else "<non-text message>" |
| Poller.TitleCases | bot_poller.py:100-101 | the title ends in "(без текста)" for all-whitespace text, and in the non-empty snippet otherwise |
| Poller.Title | bot_poller.py:100-101 | the title starts with "Идея от ", the name and ": ", and has between 1 and 60 characters after that |
| Poller.ReplyText | bot_poller.py:114 | the reply is the fixed thanks text around the issue number, which `int()` reads back; a missing number is printed as "None" |
| Poller.UpdateEffectsShape | bot_poller.py:79-119 | an update without message or channel post has no effect; otherwise the labelled issue comes first, and a reply to its chat follows exactly when the creation succeeded |
| Poller.MessageBeforeChannelPost | bot_poller.py:79-81 | the issue is built from the message when there is one, even beside a channel post, from the channel post otherwise, and an update with neither has no effect |
| Poller.IssueAndReply | bot_poller.py:79-119 | the per-update body produces the effects of `UpdateEffects` |
| Poller.ReplyFollowsIssue | bot_poller.py:109-119 | across a batch every reply comes directly after an issue creation |
| Poller.OneIssuePerPost | bot_poller.py:79-110 | one issue creation is attempted per update with a message or channel post, whatever became of the others |
| Poller.MaxIdSpec | bot_poller.py:73-77 | the scanned maximum is None exactly when no update has an id, and otherwise is one of the ids and at least every present id |
| Poller.ProcessUpdates | bot_poller.py:70-121 | the loop returns the maximum id (None for an empty list) and all effects in order; creation outcomes do not affect the maximum |
| Poller.MaxOrZero | bot_poller.py:131 | the first-run maximum counts a missing id as 0 and is one of those values and at least all of them |
| Poller.InitCursor | bot_poller.py:130-136 | the first run's cursor is 1 for an empty batch, and otherwise one past one of the ids (a missing id counted as 0) and above all of them |
| Poller.InitSkipsHistory | bot_poller.py:125-137 | the first run's cursor is above every update it saw, and at least 1 when no id is negative |
| Poller.NextCursor | bot_poller.py:147-150 | a later run's cursor is one past one of the present ids and above every present id (so it is max id + 1), and there is none exactly when no id is present |
| Poller.CursorNeverRewinds | bot_poller.py:139-151 | for a batch fetched from offset `last`, the written cursor is above `last` |
| Poller.PollerMain | bot_poller.py:124-159 | a failed fetch exits with status 2 and writes nothing; a first run creates no issues and writes the initial cursor; a later run writes nothing for an empty batch and otherwise writes max id + 1 when there is one, after the effects of `process_updates` |

## Left out

- HTTP traffic (`requests`, `raise_for_status`, `r.json()`): every call is an abstract outcome. Request URLs, tokens, headers and HTTP timeouts (the getUpdates call's 60 s among them) are not modelled.
- The clock and `time.sleep`: readings are parameters and sleeps are recorded as lengths. Float rounding is not modelled (reals instead).
- Environment bootstrap and the `sys.exit(1)` paths, logging, `print` and `json.dumps`.
- The content of the welcome HTML and the `parse_mode` and `disable_web_page_preview` fields: `SendWelcome` carries only the chat id.
- The infinite `while True` of the relay's `main`: `PollOnce` is one iteration, and iterations chain by passing `next` back as the offset.
- `Relay.PollOnce`, `Relay.HandleUpdate` and `AntiFlood.Limiter.Check` require clock readings that are positive and non-decreasing. The source assumes a real clock for this.
- `Relay.PollOnce` requires one clock reading per update of the batch.
- Relay.Actions and Relay.PollOnce record the outbound calls attempted (welcome, warning, forward), not their own `tg_call` retries: the outcomes of those calls' attempts and their 1.5 s and 3.0 s backoff sleeps are not modelled, so the `sleeps` of `PollOnce` hold only the getUpdates backoff and the 2 s error sleep. `Retry.Call` describes what each such call does on its own.
- JSON null versus a missing key: both are `None`. In the poller `message.get("chat", {})` raises on a null chat and ends the run with status 2; the model treats it as missing.
- Poller.InitCursor: an update whose `update_id` is an explicit JSON null makes `max(...) + 1` raise on a first run, so the run exits with status 2 and writes nothing (bot_poller.py:131, 157-159). The model counts such an id as 0, like a missing one.
- An empty message dictionary is falsy in Python and skipped in favour of `channel_post`; the model takes any present message.
- Ids that are not integers (a string id passed to `int()`).
- The cursor file: `ReadLastUpdate` accepts an optional sign and ASCII digits. Python's `int()` also accepts digit-group underscores and non-ASCII digits.
- The issue body's Markdown layout and its ISO 8601 date from `datetime.utcfromtimestamp`: `IssueBody` holds the fields and the date is left empty.
- The text of a failed issue creation's error and of failed replies: they only reach the log.
