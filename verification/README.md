# Free LPR avatar bot — a Dafny model of the photo-stamping core

The bot receives a photo in a private chat (the sender's profile picture on
`/start`, or any photo they send), pastes a decorative frame with the text
"Free LPR" onto it and sends the result back. This project models the part of
`AvatarBot` in `bot.py` that has checkable behaviour:

- **Geometry** — `reply_photo`'s size validation (too large above 4000 pixels,
  checked first; too small below 10), the frame side `min(w, h)`, Python's
  `round((w - h) / 2)` with ties to even, the paste box, and the proof that the
  frame lies inside the photo and is centred to within half a pixel.
- **Raster** — pasting the scaled frame onto the photo and flattening to RGB,
  over rasters of any pixel type, with resampling, alpha blending and
  flattening supplied as functions. The output keeps the photo's dimensions,
  no frame pixel is clipped, and every pixel outside the frame is only flattened.
- **Decimal** and **Messages** — the user-facing texts, and the size
  refusals `"<label>: <width>:<height>"`, with a reader that recovers the
  dimensions from a refusal and accepts only the numerals Python writes. This
  shows the text cites exactly the photo's size, spelled exactly as the bot
  spells it.
- **Report** — the administrator's diagnostic, cut with `[:MAX_MESSAGE_LENGTH]`
  (4096 characters).
- **Handlers** — `safe_respond`, `reply_photo`, the bodies of `start_handler`
  and `image_handler`, and the `log_on_error` wrapper. Each is a pure function
  from a `Platform` value to a `Trace`: the actions issued (`SendText` to the
  sender or the administrator, `SendFile`, `Delete`) and whether the handler
  returned or raised. The `Platform` value fixes the outcome of every outside
  call: the download, decoding the file, saving it, and delivering each send.
- **Scenarios** — whole-request properties of the two registered handlers.

Behaviour of the code that the model keeps as written:

- The downloaded file is removed only on the path that sends a stamped file.
  There it is removed after the send, whether the send succeeded, the person
  blocked the bot, or another error occurred. On the too-large, too-small and
  undecodable paths, and when saving fails, `reply_photo` has no `finally`, so
  the file stays on disk (`Handlers.ReplyPhoto`: `Delete` occurs iff `SendFile`
  occurs).
- The report to the administrator is sent with a plain `send_message`. If that
  send fails, even because the administrator blocked the bot, its fault
  replaces the original one and no apology is sent.

## Model

| member | source | states |
|---|---|---|
| `Geometry.RoundHalf` | bot.py:144 | the offset is the integer nearest to (w-h)/2, ties going to the even neighbour, as Python's `round` does |
| `Geometry.NearestEvenUnique` | bot.py:144 | round-half-to-even of d/2 is a single well-defined integer |
| `Geometry.RoundHalfIsNearest` | bot.py:144 | no integer is closer to d/2 than the computed offset |
| `Geometry.PasteBox` | bot.py:145 | the box has one zero coordinate, both are non-negative, and their difference is the signed offset; it moves right exactly when the offset is positive |
| `Geometry.Layout` | bot.py:134-145 | too large iff max side > 4000 (checked first); too small iff max ≤ 4000 and min < 10; refusals carry (w, h); an accepted photo gets side = min(w, h) ≥ 10, a frame inside the photo, touching the top or left edge, shifted by round((w-h)/2) and centred to within half a pixel (|2x + side - w| ≤ 1, the same for y) |
| `Geometry.LayoutExamples` | bot.py:135-145 | (5000,5) and (4001,100) are too large, (9,9) too small; square, 800×400 and 400×800 photos get boxes (0,0), (200,0), (0,200); offsets for differences 1, 3, -3 are 0, 2, -2 |
| `Raster.Paste` | bot.py:146 | pasting keeps the image's dimensions |
| `Raster.PasteKeepsOutside` | bot.py:146 | every image pixel outside the frame's square is left as it was |
| `Raster.PasteCoversFrame` | bot.py:146 | when the box lies inside the image, every pixel of the frame is blended onto the image pixel under it |
| `Raster.Convert` | bot.py:148 | converting to RGB keeps the image's dimensions |
| `Raster.ConvertMapsPixels` | bot.py:148 | converting maps every pixel through the flattening where it stands |
| `Raster.PasteAndConvert` | bot.py:146-148 | for a box inside the photo, pasting then flattening keeps the dimensions, blends and flattens every frame pixel in place, and only flattens the others |
| `Raster.Stamp` | bot.py:142-148 | the stamped output has the input's dimensions; every pixel of the scaled frame is blended onto the photo (none clipped); all other pixels are only flattened |
| `Decimal.Format` | bot.py:136 | a dimension is written as a canonical decimal numeral: digits only, no leading zero |
| `Decimal.ParseFormat` | bot.py:136 | reading a written dimension back gives the dimension |
| `Decimal.FormatParse` | bot.py:136 | every canonical numeral is the written form of the number it denotes |
| `Decimal.FormatInjective` | bot.py:136 | different dimensions are written differently |
| `Messages.SizeText` | bot.py:136-139 | a size text opens with its caption and reads back as exactly the dimensions it was built from |
| `Messages.TooLargeText` | bot.py:136 | the too-large refusal opens with its label and names exactly (w, h) |
| `Messages.TooSmallText` | bot.py:139 | the too-small refusal opens with its label and names exactly (w, h) |
| `Messages.ParseDimensionsExactly` | bot.py:136-139 | the `"<width>:<height>"` part reads back as (w, h) only when it is the two numerals Python writes for w and h |
| `Messages.ParseSizeSpelled` | bot.py:136-139 | a text that reads back as (w, h) under a caption is the caption, `": "`, and the numerals of w and h separated by a colon |
| `Messages.ParseSizeExactly` | bot.py:136-139 | a text reads back as (w, h) exactly when it is the size text for (w, h), so the reading fixes the text the bot sends |
| `Messages.SizeTextInjective` | bot.py:136-139 | equal refusal texts with one label cite equal dimensions |
| `Messages.RefusalsDiffer` | bot.py:136-139 | a too-large refusal never reads like a too-small one |
| `Report.Truncate` | bot.py:46 | the slice is a prefix of the text, of length min(length, limit) |
| `Report.TruncateIsLongestPrefix` | bot.py:46 | no prefix within the limit is longer than the slice |
| `Report.FullReport` | bot.py:39-45 | the uncut report starts with the header and the error in its own code block, holds the whole traceback 26 characters after the error, ends with `<code>`, the event and `</code>`, and has exactly 78 characters besides the three fields |
| `Report.AdminReport` | bot.py:39-46 | the report is at most 4096 characters, a prefix of the full report, the full report exactly when the three fields fit in 4096 minus the markup, and exactly 4096 characters of it when it does not fit, always starts with the header, and holds the whole error text when header and error fit |
| `Report.AdminReportDetermined` | bot.py:39-46 | any prefix of the full report of length min(its length, 4096) is the report that is sent, so the contract of `AdminReport` fixes it |
| `Handlers.AfterSend` | bot.py:24-28 | after a send, the handler raises exactly when delivery was refused for a reason other than a blocked or deleted account, with that fault, so a blocked or deleted account never escapes |
| `Handlers.SafeRespond` | bot.py:24-28 | one text to the sender; it raises exactly when delivery failed for a reason other than a blocked or deleted account |
| `Handlers.Then` | bot.py:113-117 | a call followed by a statement raises iff either part does, the call's actions come first, and cleanup and silence towards the administrator carry over; the full sequencing (the statement's actions follow, and it decides the exit) is stated on `Handlers.StartFlow`, the one place the combinator is used |
| `Handlers.ReplyPhoto` | bot.py:131-156 | undecodable photos raise with no action; a decoded photo is answered exactly as `ReplyDecoded` answers its dimensions; a file is sent iff the photo decodes, is accepted and is saved; delete occurs iff send does; nothing goes to the administrator; blocked/deleted-account faults never escape |
| `Handlers.ReplyDecoded` | bot.py:134-156 | refused photos get only the size text naming (w, h) and raise iff that text fails for a reason other than a blocked or deleted account, with that fault; an accepted photo whose save fails raises with no action; a file is sent iff the photo is accepted and saved, and then the actions are exactly send then delete, whatever the delivery did, and the reply raises iff the file send failed for such a reason; delete occurs iff send does; nothing goes to the administrator; blocked/deleted-account faults never escape |
| `Handlers.SendAndRemove` | bot.py:151-156 | the file is sent and then removed whatever the delivery did, and the call raises exactly when the send failed for a reason other than a blocked or deleted account |
| `Handlers.StartFlow` | bot.py:106-117 | a failed profile-photo download raises with no action; no avatar gives exactly the hint, raising iff the hint fails; with an avatar, a raising photo reply ends the flow, otherwise its actions are followed by the hint and the hint decides the exit; a returning flow always ends with the hint |
| `Handlers.ImageFlow` | bot.py:119-129 | the "no photo" text is sent iff the download yields nothing, and then nothing else is sent and the flow raises iff that text fails; a failed download raises with no action; otherwise the flow is the photo reply |
| `Handlers.LogOnError` | bot.py:31-54 | a returning handler is untouched; a raising one is followed by the truncated report to the administrator, then (if delivered) the apology, and the wrapper still raises: the original fault, or the fault of a report or apology send that failed; for a handler that did not itself message the administrator, the administrator is messaged exactly when it raised |
| `Handlers.HandleStart` | bot.py:106-117 | the decorated start handler messages the administrator and raises exactly when the start flow raised, begins with the flow's actions, and removes every sent file right after sending it |
| `Handlers.HandleImage` | bot.py:119-129 | the decorated image handler messages the administrator and raises exactly when the image flow raised, begins with the flow's actions, and removes every sent file right after sending it |
| `Handlers.CleansUpAppend` | bot.py:151-156 | joining two action lists that each remove every sent file right after sending keeps that property |
| `Scenarios.OversizedWins` | bot.py:135-140 | a photo over 4000 pixels on a side is refused as too large even when also under 10, and no file is sent or removed |
| `Scenarios.OversizedThinExample` | bot.py:135-137 | a 5000 × 5 photo gets only the too-large text |
| `Scenarios.NoAvatarGreeting` | bot.py:110-117 | a greeting from someone without an avatar yields exactly the hint, and the handler returns |
| `Scenarios.NoPhotoMessage` | bot.py:124-129 | a photo message with nothing to download yields exactly the "no photo" text |
| `Scenarios.SaveFailureReported` | bot.py:146-149 | an accepted photo whose save fails sends no file; the first action is the administrator report on that failure, and both handlers raise |
| `Scenarios.ExpectedOutcomesStayQuiet` | bot.py:151-154 | with working downloads, decoding and saving, and only blocked or deleted-account refusals, both handlers return and the administrator hears nothing |

## Left out

- Frame asset preparation (bot.py:77-94): loading `arcs.png`, the font, and drawing the "Free LPR" text happen inside the imaging library. In `Raster.Stamp` the scaled frame is whatever the `resize` parameter returns.
- Resampling, alpha blending and RGB conversion of PIL are library behaviour. They enter as the function parameters `resize`, `blend` and `drop`. `Raster.Stamp` requires only that `resize` returns a `side × side` raster for the side that is used.
- The messaging client: connecting, `create`, `start_bot`, `catch_up`, and the event filters that route `/start` and private photo messages to the handlers (bot.py:58-75, 96-104). These are network calls. Their results appear as the `Platform` parameter.
- Which exception classes Telethon raises. They are abstracted to `UserBlocked`, `UserDeactivated` and `Failure(text)`. `str(error)`, the formatted traceback and the event's text come from a `Diagnostics` parameter.
- Download errors are taken never to be a blocked or deactivated account: `DownloadFailed` always becomes `Failure(error)`. So on the download branch, `StartFlow` and `ImageFlow` promise that no such fault escapes because of this modelling choice, not because of anything the source does.
- `os.remove` is taken to succeed. If it failed, its error would replace the send's outcome.
- Logging calls. They do not affect what is sent.
- Reading `event.chat` and its `id` (bot.py:108-110, 121-122). If that read fails, the handler raises before any action and `log_on_error` reports it. The model expresses such an early failure only as a `DownloadFailed` download, which has the same trace.
- asyncio scheduling. Each request is modelled on its own.
- Configuration loading in `main` (bot.py:159-165) is file and environment I/O.
- The float division in `(width - height) / 2` is modelled exactly on integers. For sides of at most 4000 the half-integer is exact in a float, so nothing is lost.
