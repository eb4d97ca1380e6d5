# doctolib-watcher in Dafny

A model of the deterministic core of `DoctolibWatcher` (main.py), a watcher
that polls Doctolib's availability API for a list of doctors and sends an SMS
listing appointment slots it has not announced before. The model covers one
`_process_doctor` call, without its side effects:

- **Dated URLs** (`UrlWindows`). `_generate_url_with_date` either rewrites
  every `&`-piece of the template that starts with `start_date=`, or appends
  `start_date=<date>` after `?` or `&`. `_generate_urls_for_period` builds one
  such URL per 15-day window, `(days + 14) // 15` of them. Dates are day
  numbers; the `'%Y-%m-%d'` rendering is a parameter `dateStr`.
- **Slot extraction** (`Availabilities`). `_extract_available_slots` works on a
  small datatype for the decoded JSON body: an optional `availabilities` list
  whose entries have an optional `slots` list.
- **The dedup pass** (`Dedup`). This is a fold over the extracted slots in
  window order, carrying `sent_slots`. A slot is new when the string
  `name + ":" + slot` is not in the set, and that string is inserted at once.
- **The message** (`Notification`). It has a header, at most 10 rendered
  slots and an `... and N more slots` line. When nothing is new it is the
  literal `nO NEW SLOTS FOUND`.
- **The call as a whole** (`Watcher.ProcessDoctor`). It puts the four parts
  together. The fetch is a parameter `fetch`: `fetch(i, url)` is the decoded
  body that the request of window `i` got this cycle, and a failed fetch is
  the empty body `{}`. Windows answer independently, even when their URLs
  coincide (`AnyAnswersPossible`). The SMS is the message
  the call hands to `_send_sms`.
- **`Strings`** gives Python's `split`, `join`, `startswith`, `in` and `str(n)`
  the meaning the code relies on.

Facts about main.py that the model keeps:

- Sent-slot keys live only in the in-memory set `self.sent_slots`
  (main.py:30). Nothing stores them durably, and nothing ever removes them.
- A key is inserted as soon as its slot is found new (main.py:150-152).
  This happens before the SMS is attempted (main.py:161), whatever the
  delivery outcome.
- Every call sends a message. When nothing is new it sends the idle text
  (main.py:163-165).
- The key is the joined string `f"{doctor_name}:{slot}"`, not a pair
  (main.py:149). `KeysCollideAcrossNames` exhibits a collision between two
  doctors. `SlotKeyInjective` shows that no collision is possible when
  names have no `:`.

The URL rewrite matches `start_date=` only at the head of an `&`-piece. So a
template whose date is its first query parameter (`...?start_date=...`)
comes back unchanged, and every window asks for the same first day
(`DateFirstNeverRewritten`, `RedateAfterQuestionMarkSticks`). The shipped
template has the date as a later parameter, which is rewritten
(`MiddleDateRewritten`).

## Model

| member | source | states |
|---|---|---|
| UrlWindows.UrlWithDate | main.py:34-51 | `_generate_url_with_date` with the date already rendered; characterised by the lemmas below, case by case |
| UrlWindows.RewritePart | main.py:43-46 | one `&`-piece after the rewrite: `start_date=<date>` if it starts with `start_date=`, the piece itself otherwise; `ReplacedParameters` states it for every piece of a URL |
| UrlWindows.RewriteParts | main.py:42-46 | one output piece per input piece, in order, each rewritten on its own |
| UrlWindows.DatedUrlCarriesDate | main.py:34-51 | every dated URL contains `start_date=`, on both branches |
| UrlWindows.AppendedAfterQuery | main.py:48-51 | with no `start_date=` and a `?` in the template, the `&`-pieces of the result are the template's pieces followed by one `start_date=<date>` piece |
| UrlWindows.AppendedAfterPath | main.py:48-51 | with no `start_date=` and no `?`, the result's pieces are the template's, with `?start_date=<date>` glued onto the last one |
| UrlWindows.ReplacedParameters | main.py:38-47 | with `start_date=` present, the result has as many `&`-pieces as the template, in order; pieces starting with `start_date=` become `start_date=<date>`, the others are unchanged |
| UrlWindows.NoDatePartUnchanged | main.py:38-47 | if `start_date=` occurs but heads no `&`-piece, the URL is returned unchanged |
| UrlWindows.NoDatePartWithoutKey | main.py:38-43 | a template without `start_date=` has no piece starting with it, so only the append branch can add a date |
| UrlWindows.DateFirstNeverRewritten | main.py:38-47 | a template `path?start_date=v&...` is returned unchanged for every date |
| UrlWindows.MiddleDateRewritten | main.py:38-47 | a template whose `start_date=` is a later parameter comes back with exactly that value replaced and every other piece kept |
| UrlWindows.RedateAfterAmpersand | main.py:34-51 | re-dating a URL whose date was appended after `&` gives the same URL as dating the template with the new date |
| UrlWindows.RedateAfterQuestionMarkSticks | main.py:34-51 | re-dating a URL whose date was appended after `?` returns it unchanged |
| UrlWindows.WindowCount | main.py:59-61 | no windows for `days <= 0`; otherwise the least `n` with `15 * n >= days` |
| UrlWindows.WindowsCoverHorizon | main.py:59-62 | every day of `[today, today + days)` lies in window `(d - today) / 15`, which is one of the generated windows |
| UrlWindows.DefaultHorizonWindows | main.py:31 | the default 100-day horizon needs 7 windows, the last starting 90 days from today |
| UrlWindows.WindowStart | main.py:62 | the first day of window `i`, `today + 15 * i`; `WindowsCoverHorizon` shows the windows cover the horizon |
| UrlWindows.GenerateUrlsForPeriod | main.py:53-66 | one URL per window, in window order; URL `i` is the template dated `today + 15 * i` |
| Availabilities.IsEmpty | main.py:145 | truthiness of a decoded JSON object: false exactly for `{}`; `Watcher.AllSlotsSnoc` shows that skipping a falsy body loses no slot |
| Availabilities.SlotsOf | main.py:107-108 | an entry contributes either nothing or its whole `slots` list, and nothing exactly when that list is missing, null or empty |
| Availabilities.Flatten | main.py:106-108 | the `extend` loop over the entries; characterised by `FlattenMembers` (membership) and `FlattenAppend` (order) |
| Availabilities.ExtractSlotsMembers | main.py:104-109 | a slot is extracted exactly when some entry holds it in a truthy `slots` list |
| Availabilities.FlattenMembers | main.py:106-108 | a slot is in the flattening exactly when some entry contributes it |
| Availabilities.FlattenAppend | main.py:106-108 | the slots of consecutive runs of entries are concatenated in order |
| Availabilities.EntryContributesInPlace | main.py:107-108 | an entry with a truthy `slots` list contributes that whole list contiguously, after the earlier entries' slots and before the later ones' |
| Availabilities.ExtractSlotsInPlace | main.py:104-109 | in a whole response, an entry with a truthy `slots` list contributes that list contiguously, between the slots of the entries before it and those after it |
| Dedup.SlotKey | main.py:149 | the key `name:slot`; `SlotKeyInjective` and `KeysCollideAcrossNames` say when two pairs share it |
| Dedup.SlotKeyInjective | main.py:149 | when neither name holds `:`, equal keys mean the same doctor name and the same slot |
| Dedup.DedupSlots | main.py:147-152 | the inner loop as a fold that carries the set; characterised by `DedupMatchesReference`, `DedupSent`, `DedupFoundKeys` and `DedupDistinct` |
| Dedup.DedupMatchesReference | main.py:144-152 | the slots found new are exactly those, in order, whose key is neither in the initial set nor the key of an earlier slot |
| Dedup.DedupSent | main.py:150-152 | afterwards the set is the old set plus the key of every slot looked at |
| Dedup.DedupFoundKeys | main.py:147-152 | the keys of the new slots are exactly the keys looked at that were not in the set before |
| Dedup.DedupFoundUnsent | main.py:150-151 | every new slot was looked at, and its key was not in the initial set |
| Dedup.DedupDistinct | main.py:149-152 | no two new slots share a key |
| Dedup.DedupAppend | main.py:144-152 | the pass over two runs is the pass over the first, then the pass over the second from the set the first left |
| Dedup.DedupSnoc | main.py:149-152 | one more slot is kept exactly when its key is not yet in the set, and its key is added either way |
| Dedup.DedupRepeatFindsNothing | main.py:144-152 | a second pass over the same slots finds nothing and leaves the set unchanged |
| Dedup.NeverAnnouncedTwice | main.py:150-152 | no key announced by one pass is announced by a later pass over any slots |
| Dedup.KeysCollideAcrossNames | main.py:149 | doctor `A` with slot `B:C` and doctor `A:B` with slot `C` share a key, so the second is suppressed once the first is announced |
| Notification.Header | main.py:157 | the first line `New slots for <name>:`; `FixedLinesHaveNoNewline` shows it is one line when the name has no line break |
| Notification.MoreLine | main.py:158-159 | the count line; `HiddenCountReadsBack` reads its number back as `n - 10` |
| Notification.FormatAll | main.py:156 | one rendered line per new slot, in order: line `i` is the rendering of slot `i` |
| Notification.ComposeMessage | main.py:155-165 | the message is the idle text exactly when no slot is new |
| Notification.MessageIsJoin | main.py:155-159 | a message with new slots is the header, up to 10 rendered slots and, if more, the count line, joined by line breaks |
| Notification.MessageReadsAsLines | main.py:155-159 | split on line breaks, a message with `n >= 1` new slots gives the header, the first `min(n, 10)` rendered slots, and a count line exactly when `n > 10` |
| Notification.HiddenCountReadsBack | main.py:158-159 | the count line's number reads back as `n - 10` |
| Watcher.Responses | main.py:140-141 | one response per URL, in URL order; response `i` is the answer to window `i`'s own request |
| Watcher.AnyAnswersPossible | main.py:140-141 | any sequence of answers, one per window, is what some `fetch` produces, so windows fail or succeed independently even when their URLs coincide |
| Watcher.AllSlots | main.py:144-146 | the slots of the non-empty bodies in window order; characterised by `AllSlotsSnoc`, `AllSlotsIncludes` and `AllSlotsSource` |
| Watcher.AllSlotsSnoc | main.py:144-146 | skipping an empty body is the same as adding its (empty) extraction, so each body contributes its slots in window order |
| Watcher.AllSlotsIncludes | main.py:144-146 | every slot of every body of the cycle is looked at |
| Watcher.AllSlotsSource | main.py:144-146 | every slot looked at comes from some body of the cycle |
| Watcher.ResponseStep | main.py:144-152 | a non-empty body continues the pass from the set the earlier bodies left; an empty one changes nothing |
| Watcher.AddNewSlots | main.py:147-152 | the inner loop over one body's slots appends the new ones and inserts every key, as the pass does |
| Watcher.ProcessDoctor | main.py:131-166 | the call fetches one dated URL per window, in window order; its new slots and final set are those of one pass over the slots of all responses in window order, from the set it was given; the message is composed from those new slots |
| Watcher.CycleOutcome | main.py:144-152 | after such a pass exactly the first-new slots are announced, with distinct keys, and every extracted key is in the set, whatever is sent |
| Watcher.OneSlotTwoCycles | main.py:131-166 | a body with one slot is announced once; the next cycle over the same body sends the idle text |
| Strings.StartsWith | main.py:43 | `s.startswith(prefix)`: `s` begins with the characters of `prefix` |
| Strings.Contains | main.py:38 | `sub in s`; `ContainsAt` shows it means an occurrence at some position |
| Strings.ContainsAt | main.py:38 | `sub in s` exactly when `sub` is the slice of `s` at some position |
| Strings.Split | main.py:40 | `s.split(c)`: at least one piece; characterised by `JoinSplit`, `SplitJoin` and `SplitPiecesFree` |
| Strings.Join | main.py:47 | `sep.join(parts)`; `JoinSplit` and `SplitJoin` make it the inverse of `Split` |
| Strings.JoinSplit | main.py:40-47 | joining the `&`-pieces of a URL restores it |
| Strings.SplitJoin | main.py:40-47 | splitting a join of separator-free pieces restores the pieces |
| Strings.SplitAppend | main.py:40 | splitting at a separator splits the two sides independently |
| Strings.SplitExtendLast | main.py:40 | appending separator-free text only extends the last piece |
| Strings.SplitPiecesFree | main.py:40 | no piece of a split holds the separator |
| Strings.SplitPartContains | main.py:38-43 | a piece that starts with `start_date=` implies `start_date=` occurs in the URL |
| Strings.NatToString | main.py:159 | `str(n)`: at least one decimal digit, and no leading zero |
| Strings.ParseNatToString | main.py:159 | `str(n)` reads back as `n` |

## Left out

- `_fetch_availabilities` (main.py:68-100) is not modelled: the HTTP request, the random 2–5 s sleep, the headers, and the status and exception handling are all I/O. Its result for window `i` is the parameter `fetch(i, url)`, with a failure as the empty body.
- `_send_sms` (main.py:111-121) is a foreign Twilio call. The model stops at the message it is handed.
- `check_availabilities` and `run_scheduler` (main.py:168-199) run doctors concurrently and cycles forever, with sleeps and back-off. They are concurrency and I/O. With several doctors, the order in which their passes touch the shared set is not modelled.
- `datetime.now`, `strftime` and `_format_slot_time` (main.py:123-129) are library date handling. "Today" is a day number given as input, and the two renderings are uninterpreted parameters.
- UrlWindows.GenerateUrlsForPeriod: day numbers are unbounded integers, but main.py:62 adds `timedelta(days=i * 15)` to a `datetime.date`. That raises `OverflowError` once a window would start after 9999-12-31, which happens when `DAYS_TO_CHECK` (main.py:31) is above roughly 2.9 million.
  - `_process_doctor` then raises at main.py:136, before any fetch, key insertion or SMS. The scheduler logs the error and retries a minute later (main.py:196-199), and the same raise recurs every cycle.
  - The model instead returns `WindowCount(days)` URLs and carries on. `Watcher.ProcessDoctor` inherits this.
- Environment loading, logging and the doctor configuration file are left out. They are configuration, not logic.
- Availabilities.IsEmpty: the model's bodies are JSON objects, but `response.json()` (main.py:92) returns any JSON value, and a 200 answer can carry one that is not an object:
  - `null`, `[]`, `""`, `0` and `false` are falsy. They are skipped at main.py:145, just like `{}`.
  - A non-zero number or `true` is truthy, and `'availabilities' in data` raises `TypeError` at main.py:105.
  - A non-empty string holding the text `availabilities`, or a list holding the string `"availabilities"`, passes main.py:105. Then `data['availabilities']` raises at main.py:106. Any other string or list yields no slots.
  - A raise has the consequence described below for extraction. The keys of earlier windows stay in `sent_slots`, no SMS is sent, and those slots are never announced.
- Availabilities.ExtractSlots: the datatype only holds bodies whose `availabilities`, when present, is a list of objects, and whose truthy `slots` is a list of strings. Python accepts more shapes:
  - If `availabilities` is an empty dict, string or list, the loop at main.py:106 runs zero times and yields no slots.
  - If `availabilities` is null, a number, or a non-empty string or dict, the loop raises. So does an entry that is not an object (main.py:107).
  - If `slots` is a truthy string, `extend` adds its characters one by one (main.py:108). A truthy dict adds its keys. A number raises.
  - When extraction raises for window `k`, `_process_doctor` stops. The keys already inserted for windows before `k` stay in `sent_slots` (main.py:152). No SMS is sent, because main.py:155-165 is never reached. Those slots are therefore never announced in any later cycle.
  - None of these shapes or raises is modelled.
- UrlWindows.AppendedAfterQuery: requires the rendered date to have no `&`. `'%Y-%m-%d'` output never has one.
- UrlWindows.AppendedAfterPath: requires the rendered date to have no `&`, as above.
- UrlWindows.ReplacedParameters: requires the rendered date to have no `&`, as above.
- UrlWindows.RedateAfterAmpersand: requires the first date to have no `&`, as above.
- UrlWindows.RedateAfterQuestionMarkSticks: requires the first date to have no `&`, as above.
- UrlWindows.DateFirstNeverRewritten: stated for templates whose pieces have no `&` and no `?` in the path, which is how a URL's pieces look.
- UrlWindows.MiddleDateRewritten: stated for pieces without `&` and a prior date without `&`, as a split URL's pieces are.
- Notification.MessageReadsAsLines: requires that neither the doctor's name nor any rendered slot holds a line break. Otherwise the message still has the stated text, but it does not split back into the same lines.
