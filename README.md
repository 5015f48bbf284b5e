# Miqdam bot: verified model of the message-handling core

The bot is a small Flask service behind a Facebook page. A customer's message
reaches `/webhook`; the bot asks a Groq-hosted language model to answer as a
wholesale sales assistant, with the current product sheet pasted into the
system prompt; the answer is cut at an `IMAGE:` marker, and the text (and, if
present, the image link) is posted back through the Graph API.

This project models, in Dafny, the deterministic logic of `app.py`:

- `PyStr` (pystr.dfy): the Python string operations the code relies on:
  `isspace`, `strip()`, `startswith`, `in`/`find`, `split(sep)` and `split()`.
  These follow CPython's meaning, including Unicode whitespace.
- `ReplyParser` (reply.dfy): the post-processing of the model's answer into
  `(reply_text, image_url)`.
- `Inventory` (inventory.dfy): `get_inventory`. This renders parsed sheet
  rows, one line per product, or returns one of its two fixed placeholders.
  It is a method with the accumulating loop, proved against a specification
  function.
- `Assistant` (assistant.dfy): `ask_groq`'s choice between the maintenance
  text, the apology text and the post-processed answer, and the embedding
  of the inventory in the system instruction.
- `Webhook` (webhook.dfy): the GET verification handshake, and the POST walk
  over entries and events. The walk is a method with the nested loops,
  proved against a specification function. It produces the list of sends
  in the order they are attempted.

External effects are parameters:

- The sheet download and CSV parse are a `SheetFetch` value.
- The model call is a function from (system instruction, user text) to a
  `ModelOutcome`.
- Whether the text POST raises is a predicate of (recipient, text).
- The Graph API sends are `Action` values appended to the result.

The model follows `app.py` as written:

- An answer without `IMAGE:` is passed on untrimmed.
- The image candidate is the text between the first and the second marker.
- The text is sent even when it is empty.
- `app.py` keeps no per-customer state, so none is modelled.

## Model

| member | source | states |
|---|---|---|
| `PyStr.Contains` | app.py:104 | `pat in s` holds exactly when `pat` occurs somewhere in `s` |
| `PyStr.Strip` | app.py:106 | `strip()` returns a slice of `s` that begins where the leading whitespace ends, and the kept slice neither starts nor ends with whitespace |
| `PyStr.StripDropsOnlySpace` | app.py:106 | every character `strip()` drops, before or after the kept slice, is whitespace |
| `PyStr.WhitespaceSet` | app.py:106-110 | the whitespace `strip()` and `split()` remove is CPython's: in ASCII exactly tab, line feed, vertical tab, form feed, carriage return, the separators 0x1C-0x1F and space; beyond ASCII it includes U+00A0 and U+3000 but not U+200B |
| `PyStr.Split` | app.py:105 | `split(sep)` gives at least one part; it gives `[s]` when `sep` is absent; otherwise it gives at least two parts, and the first is the text before the first occurrence |
| `PyStr.SplitJoin` | app.py:105 | joining the parts of `split(sep)` with `sep` gives back the original string |
| `PyStr.SplitPartsAvoidSep` | app.py:105 | no part returned by `split(sep)` contains `sep` |
| `PyStr.SplitMoreThanOne` | app.py:104-107 | `split(sep)` has more than one part exactly when `sep in s`, so the `len(parts) > 1` test always passes after the `in` test |
| `PyStr.WordsShape` | app.py:110 | `split()` yields non-empty, whitespace-free words |
| `PyStr.TakeWord` | app.py:110 | the first word candidate is a prefix of the string that stops at the first whitespace or at the end, and is non-empty when the string starts with a non-blank |
| `PyStr.TakeWordNoSpace` | app.py:110 | that prefix holds no whitespace |
| `PyStr.FirstWord` | app.py:110 | a string starting with a non-blank has a first word under `split()`, and it is that whitespace-free prefix |
| `PyStr.FirstWordKeepsPrefix` | app.py:109-110 | a string starting with a whitespace-free prefix has at least one word, so `split()[0]` cannot raise; that first word extends the prefix and is itself a prefix of the string |
| `ReplyParser.ExtractImage` | app.py:100-112 | without a marker the raw answer is returned unchanged (not trimmed) with no image; an image is only ever returned when a marker is present, and it is never empty |
| `ReplyParser.LinkCandidate` | app.py:107-110 | a link is produced exactly when there is a second part and its stripped form starts with `http`, and the link is never empty |
| `ReplyParser.HttpWordShape` | app.py:109-110 | after the `startswith("http")` test, `split()[0]` exists and is a non-empty, whitespace-free `http` prefix that runs to the first whitespace or the end |
| `ReplyParser.Segment` | app.py:105-108 | the text between the first marker and the second one (or the end): a slice of the answer that starts right after the first marker, holds no marker, and is followed by a marker or by the end of the answer |
| `ReplyParser.SplitAtMarker` | app.py:105-108 | `parts[0]` is the text before the first marker and `parts[1]` is `Segment` |
| `ReplyParser.TextPrecedesMarker` | app.py:104-106 | with a marker, the reply text is the stripped text before the first marker; it is a slice of that prefix and contains no marker |
| `ReplyParser.ImageIffHttpSegment` | app.py:107-110 | an image link is returned exactly when a marker occurs and the stripped segment after the first marker starts with `http` |
| `ReplyParser.ImageUrlShape` | app.py:107-110 | a returned link is the first word of the stripped segment: a non-empty, whitespace-free prefix of it that starts with `http` and runs up to the first whitespace or the end; it contains no marker and occurs in the raw answer |
| `Inventory.GetInventory` | app.py:33-58 | the loop's result equals `InventoryText`: the link-missing text with no link, the maintenance text on a failed fetch or parse or on a row with fewer than four cells, and otherwise the concatenated row lines |
| `Inventory.PositionalFallback` | app.py:49-54 | for a row without the four header names, the line shows the first four cells in order after their labels |
| `Inventory.NamedColumnsWin` | app.py:49-54 | when all four header names are present, the line shows the named cells and does not depend on the positional cells |
| `Inventory.TerminatedSnoc` | app.py:54 | adding one more line body to the accumulated text appends exactly that body and its newline |
| `Inventory.LinesSnoc` | app.py:47-54 | processing one more row appends exactly that row's line to the text |
| `Inventory.SplitTerminated` | app.py:46-55 | splitting newline-terminated single-line texts at newlines gives back the texts, then an empty remainder |
| `Inventory.ListingLines` | app.py:46-55 | when no field contains a line break, splitting the listing at newlines gives one body per row in row order, followed by the empty remainder |
| `Inventory.TerminatedEndsWithNewline` | app.py:46-54 | a listing is empty (zero rows) or ends with a newline |
| `Inventory.InventoryOutcomes` | app.py:36-58 | the result is the link-missing text exactly when no link is configured; it is the maintenance text exactly when the fetch or parse failed or some row is short; otherwise it is the listing |
| `Inventory.EmptySheet` | app.py:46-55 | a sheet with no rows renders as the empty string |
| `Assistant.SystemInstruction` | app.py:67-86 | the system instruction begins with the persona text and contains the inventory verbatim right after it |
| `Assistant.AskGroq` | app.py:60-116 | without a client the answer is the maintenance text with no image |
| `Assistant.NoClientConsultsNothing` | app.py:61-64 | without a client the answer does not depend on the sheet or on the model: neither is consulted |
| `Assistant.FailureApologises` | app.py:88-116 | a failed model call, or one with null content, gives the apology text and no image |
| `Assistant.SuccessPostProcesses` | app.py:98-112 | a successful call returns `ExtractImage` of the answer: a marker-free answer is sent unchanged; otherwise the text is the stripped prefix before the first marker and contains no marker; an image link comes back if and only if the stripped segment after the first marker starts with `http`, and it is that segment's first word |
| `Assistant.ImageOnlyFromAnswer` | app.py:100-116 | an image link comes only from a successful call whose answer holds a marker; the link is a whitespace-free `http` token occurring in that answer |
| `Assistant.ImageLinkShape` | app.py:100-113 | any image link `ask_groq` returns is a non-empty, whitespace-free token starting with `http` |
| `Assistant.PromptEmbedsInventory` | app.py:64-86 | the prompt sent to the model contains `get_inventory`'s text verbatim |
| `Webhook.HandleGet` | app.py:147-150 | a token that differs from the configured one is answered with ("Verification Failed", 403) |
| `Webhook.GetAcceptsIffTokensMatch` | app.py:147-150 | the handshake returns the challenge with status 200 exactly when the tokens compare equal and a challenge was sent; it answers 403 exactly when they differ |
| `Webhook.UnsetTokenAcceptsTokenlessHandshake` | app.py:147-149 | with no verify token configured, a handshake that carries no token is accepted |
| `Webhook.StrictNeedsConfiguredToken` | app.py:147-150 | the corrected handshake accepts only a request presenting a configured, non-empty token; whenever such a token is configured it agrees with the code |
| `Webhook.EventSends` | app.py:157-168 | an event causes sends exactly when it is a non-echo text message with a sender; first comes the reply text to the sender, then an image send to the same sender exactly when the reply has an image and the text POST did not raise |
| `Webhook.HandleEvent` | app.py:157-168 | the per-event body of the loop performs exactly `EventStep` |
| `Webhook.HandleMessaging` | app.py:157-168 | the inner loop over one entry's events continues the walk event by event; it stops at the first event that raises, and its sends are then those of the walk up to and including that event |
| `Webhook.PostActions` | app.py:152-172 | only a payload whose `object` is `page` and that has `entry` causes any send |
| `Webhook.HandlePost` | app.py:152-172 | the answer is ("ok", 200) on every path; the sends are those of the event walk, in entry and event order, up to the first exception |
| `Webhook.AbortIsFinal` | app.py:153-172 | after an exception, later events cause nothing |
| `Webhook.AbortEndsPost` | app.py:153-172 | an exception at one event fixes the sends of the whole payload to those made so far |
| `Webhook.InertEventIgnored` | app.py:157-163 | adding an event without text, or an echo that has a sender, anywhere in the payload changes nothing that is sent (an echo without a sender raises at app.py:159, as `EventSends` states) |
| `Webhook.RunImagesFollowTexts` | app.py:166-168 | every image send directly follows a text send to the same recipient |
| `Webhook.RunImageLinks` | app.py:165-168 | every image send of a walk carries a non-empty, whitespace-free `http` link |
| `Webhook.TextsAnswerEvents` | app.py:156-166 | if no exception occurs, the text sends are exactly one per answered event, in event order; each goes to that event's sender with `ask_groq`'s text for its message |

## Findings

| source | as written | input that shows it | evidently intended | confidence | as-written member | corrected member |
|---|---|---|---|---|---|---|
| app.py:148 | `request.args.get("hub.verify_token") == VERIFY_TOKEN` compares two values that may both be `None` | server started without `VERIFY_TOKEN`; a GET with `hub.challenge=c` and no `hub.verify_token` gets `c` with status 200 | the handshake succeeds only for a request presenting the configured, non-empty token | medium, not executed | `Webhook.UnsetTokenAcceptsTokenlessHandshake` | `Webhook.StrictNeedsConfiguredToken` |

## Left out

- The sheet download (`requests.get`, timeout, `raise_for_status`), the UTF-8 decoding and the pandas CSV parse are not modelled. Their result is a `SheetFetch` value. Rows arrive already parsed, with blanks already turned into empty strings (`fillna('')`).
- Cell values are taken to be the text pandas would print. Numeric formatting by pandas (for example `1500.0` in a column that had blanks) is not modelled.
- The model does not capture that `Product Name`, `Price`, `Stock` and `Image URL` are one shared header. Each row carries its own named-column map.
- The Groq client construction and `chat.completions.create` are not modelled. The model name, temperature and token limit are not modelled either. The call is a function of the prompt and the user text, so within one request the same inputs give the same answer.
- In the source, each call to `ask_groq` downloads the sheet again. The model uses one `SheetFetch` value for the whole request, so it does not capture different downloads within one POST.
- The HTTP posts of `send_fb_message` and `send_fb_image` are not modelled; neither are their status checks and printing. Sends are recorded as attempted `Action` values. A raising text post ends the walk. A failing image post is caught in the source and changes nothing, so it is not represented.
- Flask routing, the `home` route, reading environment variables, `app.run` and `traceback` logging are not modelled. So is the mapping from `request.method` to the two handlers.
- JSON values of an unexpected type are not modelled, for example an `entry` that is not a list or a `message` that is not an object. The handler catches the resulting exceptions like the modelled ones. The `Payload` type only represents well-typed bodies, plus missing keys. An unreadable body is `None`.
- The wording of the persona prompt is not modelled. It is a placeholder constant; only the verbatim position of the inventory is stated.
- Flask's request threading is not modelled. None of the modelled logic shares mutable state.
