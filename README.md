# Ultra-Pro Telegram AI bot: the helpers of `main.py`, in Dafny

This project models the self-contained logic of the bot's entry point,
`main.py`, and proves properties of it:

- **Secret masking** (`mask_secret`): how the bot token and API key are
  redacted for the start-up log lines. It returns `"EMPTY"` for a missing
  secret, the first character plus stars for a short one, and a prefix plus
  `"..."` for a long one.
- **Token validation**: start-up fails unless the token is present and
  non-empty and contains `':'`. The error shows only the masked token.
- **Reply cooldown** (`can_reply`, `user_cooldowns`, `COOLDOWN_SECONDS = 10`):
  a per-user rate limiter over a map from user id to the time of that
  user's last answered message.
- **Reply decision** (`should_reply`): always answer in a private chat.
  In other chats, answer only if every mention entity names the bot and
  `"@" + username` occurs in the text.
- **Polling backoff**: the run loop restarts polling after every crash.
  It sleeps `backoff` seconds, starting at 1, doubling and capped at 60.

Files and modules:

- `py_text.dfy` (`PyText`): the Python semantics the helpers rely on:
  `None` as `Option`, a raised error as `Result`, `x or []`, slicing with
  Python's clamping of out-of-range and negative bounds, ASCII `lower()`,
  and the substring operator `in`. `in` is proved equal to "occurs at some
  position".
- `secrets.dfy` (`Secrets`): `MaskSecret` and `ValidateToken`.
- `cooldown.dfy` (`Cooldown`): `Admit`, one `can_reply` step as a function
  on the table. The class `Cooldowns` holds the table as a field updated in
  place, and `Replay` runs a sequence of calls.
- `reply_policy.dfy` (`ReplyPolicy`): the message shape, the declarative
  rule `AddressedToBot`, and the method `ShouldReply`. The method keeps the
  source's loop over the entities with its early return.
- `polling.dfy` (`Polling`): the backoff step, its closed form, and
  `RunLoop`, the run loop over a given sequence of polling outcomes.

Inputs that the program reads from its environment are parameters: the
clock reading for `can_reply`, the bot's username for `should_reply` (the
program asks the platform for it), and the outcomes of the polling calls
for the run loop.

## Model

| member | source | states |
|---|---|---|
| `PyText.OrEmpty` | main.py:86-87 | `msg.text or ""` and `msg.entities or []`: a missing value becomes the empty sequence, and a present one is kept |
| `PyText.ClampIndex` | main.py:91 | a slice bound after Python's normalisation: a negative bound counts from the end, and the result is clamped to [0, len] |
| `PyText.Slice` | main.py:91 | `s[a:b]` never fails and is never longer than `s`; for in-range bounds it is exactly `s[a..b]`, and when the clamped stop is not after the clamped start it is empty |
| `PyText.SliceClampsBounds` | main.py:91 | concrete cases of the clamping: `"abcdef"[-2:10] == "ef"`, `"abcdef"[4:2] == ""` (crossed bounds give the empty slice) and `"abcdef"[-100:2] == "ab"` |
| `PyText.Repeat` | main.py:21 | `"*" * n` is a string of exactly n characters, every one of them `'*'` |
| `PyText.Lower` | main.py:94 | `lower()` keeps the length and lower-cases each ASCII letter, leaving every other character as it is |
| `PyText.ContainsIffOccurs` | main.py:92-94 | Python's `needle in hay`, computed by a left-to-right scan, holds exactly when the needle occurs at some position (both directions) |
| `PyText.Contains` | main.py:92-94 | `needle in hay` holds for the empty needle and only when the needle is no longer than `hay`; its full meaning, "occurs at some position", is proved in `PyText.ContainsIffOccurs` |
| `Secrets.MaskSecret` | main.py:17-22 | `"EMPTY"` for a missing or empty secret. A non-empty secret of length at most `visible` keeps its length and first character, and all other characters are `'*'`. A longer one is `s[:visible] + "..."`, of length `visible + 3`, with Python's meaning of a negative `visible` |
| `Secrets.MaskShowsShortPrefix` | main.py:17-22 | for `visible >= 0`, the mask of a non-empty secret agrees with it on at most its first max(visible, 1) characters; every later character of the mask is `'*'` or `'.'` |
| `Secrets.ValidateToken` | main.py:47-48 | the token check at main.py:47-48 passes exactly when the token is present, non-empty and contains `':'`, and it keeps the token unchanged. Otherwise the error carries `mask_secret(token)` with the default 8 |
| `Secrets.RejectedTokenShowsAtMostEight` | main.py:47-48 | a rejected non-empty token appears in the error with at most its first eight characters visible |
| `Cooldown.LastTime` | main.py:76 | `user_cooldowns.get(user_id, 0)`: the stored time, or 0 for an unknown user |
| `Cooldown.Admit` | main.py:74-80 | a call is answered exactly when `now - last >= 10`. If answered, the user's entry becomes `now`; if not, the table is unchanged. No other key is added, and every other user's time is kept |
| `Cooldown.BlockedWithinCooldown` | main.py:72-79 | after an answered call at time t, a call for the same user at t' with t' - t < 10 is refused |
| `Cooldown.Cooldowns.constructor` | main.py:71 | the cooldown table starts empty |
| `Cooldown.Cooldowns.CanReply` | main.py:74-80 | the result is `now - last >= 10`. The table becomes `old[user := now]` when answered and stays the same when refused |
| `Cooldown.AnsweredBelowTable` | main.py:76-78 | after any sequence of calls, each user's stored time is no earlier than any of that user's answered calls |
| `Cooldown.AnsweredAreSpaced` | main.py:72-79 | in any sequence of calls, two answered calls of one user are at least 10 seconds apart, even if the clock readings are out of order |
| `Cooldown.OthersUntouched` | main.py:78 | a user who made no call in a sequence keeps the entry, or the absence of one, that they had before |
| `ReplyPolicy.EntityText` | main.py:91 | `text[offset:offset+length].lower()` is never longer than the text; for an entity inside the text it has exactly `length` characters, the lower-cased characters of the text from `offset` on |
| `ReplyPolicy.ShouldReply` | main.py:83-96 | true in a private chat whatever the text. In any other chat it is true exactly when every `"mention"` entity's lower-cased slice contains the lower-cased username and `"@" + username` occurs in the lower-cased text (missing text and entities read as empty) |
| `ReplyPolicy.ForeignMentionSilences` | main.py:89-93 | one mention that does not name the bot keeps the bot silent in a group, even when the text also addresses the bot |
| `ReplyPolicy.LongerHandleCountsAsBot` | main.py:91-95 | names are matched as substrings: for the bot `MyBot`, a mention of `@mybot_helper` counts as addressing the bot |
| `Polling.NextBackoff` | main.py:244 | `min(backoff * 2, 60)` never exceeds 60, and it never decreases a delay in [1, 60] |
| `Polling.BackoffAfter` | main.py:237-244 | the delay after any number of crashes stays within [1, 60] |
| `Polling.BackoffClosedForm` | main.py:237-244 | after k crashes the delay is min(2^k, 60) |
| `Polling.BackoffMonotone` | main.py:244 | the delay after j crashes is at most the delay after k >= j crashes |
| `Polling.RunLoop` | main.py:237-244 | the loop sleeps once per crash. The k-th sleep lasts min(2^k, 60) seconds, every sleep is within [1, 60], the sleeps never decrease, and a normal return of polling neither sleeps nor resets the delay |

## Left out

- The scheduled-broadcast engine (`SchedulerManager`, used at main.py:68, 139 and 230) and the database (`Database`, main.py:58): `utils/scheduler.py` and `utils/db.py` are not part of this model. Their behaviour (job timing, recurrence, restore after restart) is not modelled, because nothing of it can be read from the files modelled here.
- The Telegram handlers (`start`, `panel`, `cb`, `grab_sticker`, `chat`, `sticker`, `gif`) and every platform call (`send_message`, `reply_to`, `get_chat_administrators`, `infinity_polling`, `get_me`): these are SDK glue and user-interface markup. `utils/panel.py` only builds an inline keyboard.
- `utils/ai_helpers.py`: a thin wrapper over calls to the OpenAI client over the network.
- Loading the configuration and the environment (main.py:25-38), including the `int()` parse of `OWNER_ID`: file and environment I/O. The token is a parameter of `ValidateToken`.
- The debug prints of masked secrets (main.py:41-44) and all logging: output only. The masking they use is modelled.
- Randomness in the sticker handler (main.py:209, 215) and the real sleep (main.py:243). `RunLoop` returns the durations it would sleep.
- Cooldown.Cooldowns.CanReply: time is an exact `real` number of seconds passed in by the caller. The float rounding of `time.time()` and the reading of the clock itself are not modelled.
- Cooldown.Cooldowns.CanReply: calls are assumed to run one at a time. The program calls `can_reply` from two handlers (main.py:178 and 209), and the messaging SDK may run handlers on worker threads; the check-then-set race between the read at main.py:76 and the write at main.py:78 is not modelled. Cooldown.AnsweredAreSpaced therefore holds for serialised calls only.
- Polling.RunLoop: the `while True` loop never ends. The model runs it over a finite sequence of polling outcomes, which covers every finite prefix of a run, but not the loop's non-termination.
- PyText.Lower: only ASCII letters are lower-cased. Unicode case mapping is not modelled.
- ReplyPolicy.ShouldReply: entity offsets and lengths index the text's characters directly. Telegram measures them in UTF-16 code units, and that difference is not modelled.
- Secrets.MaskShowsShortPrefix: stated only for `visible >= 0`. A negative `visible` slices from the end in Python and can show more of the secret. Every call in the program passes 8.
- The raise at main.py:48 becomes the `Failure` branch of `ValidateToken`. The wording of the error message beyond the masked token is not modelled.
