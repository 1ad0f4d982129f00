# Cooldown-gated trading-signal bot, modelled in Dafny

The bot offers a keyboard of eight OTC currency pairs. When a user sends a
message, `otc_response` in `main.py` first consults a per-user cooldown table.
A user whose cooldown has not expired is told how many whole seconds remain,
and nothing else happens. Any other user gets a fresh ten-second cooldown at
once. Only then is the text checked against the pair list. An unknown text is
rejected. A known pair is answered with one of two fixed BUY/SELL templates,
picked at random, with the pair name filled in.

The project has four modules:

- `Bot` (`bot.dfy`): the constants `responses`, `otc_pairs` and `COOLDOWN_TIME`.
  Each template is written as a banner, the `{pair}` field, then a body.
- `Template` (`template.dfy`): `str.format` for the `{pair}` field (`Fill`) and
  the signal text (`Signal`), with lemmas on what a filled template contains.
- `Keyboard` (`keyboard.dfy`): the start command's keyboard, i.e. the pair list
  cut into rows of two (`Rows`, `Layout`).
- `Cooldown` (`cooldown.dfy`): the decision for one message.
  - The pure transition `Step` gives the outcome and the new table.
  - The class `CooldownTable` holds the table as a `map<int, real>` field.
    Its method `Select` overwrites that field in place, as the source overwrites
    the `user_cooldowns` dictionary.
  - Lemmas cover two consecutive messages.

The event-loop clock reading is the input `now`, a real number of seconds.
The source's `random.choice(responses)` becomes the input index `pick`.
`int(expiry - now)` on a positive difference is modelled as `.Floor`.

Three details are kept as main.py has them:

- The cooldown is set before the choice is validated (main.py:75-80). An
  invalid text is therefore rejected *and* starts a cooldown, and a valid
  choice sent right after it is denied.
- The wait shown is truncated (main.py:66), not rounded up. With 4.5 seconds
  left (a message at 5.5 after one at 0) the user reads 4, where rounding up
  would show 5. With less than one second left the user reads 0.
- The SELL template's arrows read down, down, up (main.py:19). They are kept
  as written.

## Model

| member | source | states |
|---|---|---|
| `Bot.Configuration` | main.py:17-32 | The constants `Responses`, `OtcPairs` and `CooldownTime`: two templates, each banner + `{pair}` + body; eight distinct pairs; a 10-second window |
| `Template.Fill` | main.py:90 | `str.format(pair=v)`: replaces each `{pair}` left to right and copies everything else; filling with `{pair}` itself gives the template back. Its other properties are `FillPlain`, `FillPlainPrefix`, `FillField` and `FillTemplate` |
| `Template.FillPlain` | main.py:90 | Text without `{` has no replacement field, so formatting returns it unchanged |
| `Template.FillPlainPrefix` | main.py:90 | A prefix without `{` is copied unchanged in front of the formatted rest |
| `Template.FillField` | main.py:90 | A leading `{pair}` field is replaced by the pair |
| `Template.FillTemplate` | main.py:17-20 | Formatting banner + `{pair}` + body (neither containing `{`) gives banner + pair + body |
| `Template.Signal` | main.py:90 | The reply for template `pick` is that template's banner, then the pair, then its body |
| `Template.SignalNamesPair` | main.py:90 | The pair can be read back from the reply, between the banner and the body |
| `Template.SignalInjective` | main.py:90 | Under one template, different pairs give different replies |
| `Template.SignalDirectionsDiffer` | main.py:17-20 | A BUY reply never equals a SELL reply, whatever the pairs |
| `Keyboard.Rows` | main.py:52 | Number of rows is ceil(n/2); each row has 1 or 2 items; every row but the last has exactly 2; the rows concatenated give the list back in order |
| `Keyboard.RowsAt` | main.py:52 | Row k is the slice `s[2k : 2k+2]`, cut off at the end of the list, which is exactly what the comprehension produces |
| `Keyboard.Layout` | main.py:52 | The `keyboard` of the start command holds every pair once, in list order, in four rows of two |
| `Keyboard.LayoutIsFourRowsOfTwo` | main.py:23-26 | With the eight configured pairs the keyboard is four rows of two, in list order |
| `Cooldown.Step` | main.py:63-90 | Denied exactly when the user has an entry and `now` is before it. A denial leaves the table unchanged, and its wait is `floor(expiry - now)`. Otherwise the user's entry becomes `now + 10` and every other entry stays as it was. Rejected exactly when not denied and the text is not a pair. Admitted carries the template filled with the pair |
| `Cooldown.RemainingBounds` | main.py:64-66 | When every entry was set no later than `now`, the wait shown is between 0 and 10. It is 0 exactly when less than one second remains |
| `Cooldown.AbsentNeverDenied` | main.py:65 | A user with no entry is never denied and gets expiry `now + 10` |
| `Cooldown.WindowAfterStep` | main.py:65-75 | After a non-denied message at t, a message at t2 >= t is denied exactly when t2 < t + 10, with wait floor(t + 10 - t2) in 0..10. From t + 10 on, it is decided as if the user had no entry |
| `Cooldown.OtherUsersUnaffected` | main.py:75 | One user's message leaves another user's presence in the table, their expiry, and the outcome of their next message unchanged |
| `Cooldown.Scenarios` | main.py:63-80 | Concrete runs. A pair at 0 is admitted, at 5 denied with 5, at 5.5 denied with 4, at 11 admitted. An invalid text at 0 is rejected, and a pair at 0 right after it is denied with 10. A wait under one second shows 0 |
| `Cooldown.CooldownTable.constructor` | main.py:29 | The table starts empty |
| `Cooldown.CooldownTable.Select` | main.py:63-90 | Updates the table in place exactly as `Step` says and returns its outcome. It keeps the invariant that no entry is more than 10 s beyond the clock, so a denial's wait is within 0..10 |

## Left out

- Message transport: replying, editing the "Analyzing" message, deleting the cooldown notice, the reply-keyboard markup and Markdown mode (main.py:53-55, 69-71, 79, 83-86, 93-101). These are calls into the chat library.
- Delays: `asyncio.sleep(3)` and `asyncio.sleep(random.randint(1, 3))` (main.py:70, 87). They do not affect the decision.
- Clock: `asyncio.get_event_loop().time()` (main.py:64) becomes the input `now`. `CooldownTable.Select` requires readings that never decrease: the loop's clock is monotonic, and decisions happen in the order handlers reach line 64 (see Concurrency below).
- Randomness: the template choice is the input `pick`.
- Concurrency: handlers interleave only at their `await`s, and there is none between the clock reading (main.py:64), the check (main.py:65) and the overwrite (main.py:75). Each message's decision therefore runs atomically under the event loop, so the one-message-at-a-time `Select` is exact for the decision. What is left out is the interleaving of the later replies and sleeps (main.py:69-71, 79, 83-101), which do not touch the table.
- `Template.Fill` models `str.format` only for `{pair}` fields. The templates contain no other braces, so escaped braces and other fields are not modelled.
- Floating point: times are exact reals, so float rounding in `now + COOLDOWN_TIME` is not modelled.
- Startup and process wiring: token loading, logging setup, `error_handler`, `main` and polling (main.py:9-14, 104-125).
- The welcome text `start_message` (main.py:35-47) is static content.
