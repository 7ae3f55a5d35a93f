# Slack screen-change notifier, modelled in Dafny

The program watches a rectangle of the screen. It takes a first screenshot as the
baseline. Once a second, it takes a new screenshot and compares it pixel by pixel with
the previous frame and with the baseline. When the new frame equals neither, it posts the
configured message to a Slack webhook, as the JSON body `{"text": "<message>"}`, and the
new frame becomes the previous frame. The four corner coordinates come from integer
prompts that discard input until an integer is typed.

The model has four modules, one per component of `SlackNotify.java`:

- `Bitmaps` (`bitmaps.dfy`): captured images as immutable values, and `areEqual` as the
  method `AreEqual`, a nested loop with an early exit. The model keeps the source's
  behaviour when the second image is smaller than the first: `getRGB` throws there, and
  `AreEqual` returns `OutOfBounds(x, y)` for the first such coordinate in scan order. The
  postcondition determines the result completely. It is `Returned(true)` exactly when every
  pixel in the first image's bounds exists in the second and is equal. It is
  `Returned(false)` exactly when the scan reaches a differing pixel first. Lemmas show that
  for same-size images the comparison is reflexive, symmetric, exact bitmap equality,
  independent of scan order, and broken by a single differing pixel.
- `Detection` (`detection.dfy`): the polling loop. The pure state machine is `Frames`
  (baseline, previous), `IsChange`, `Next`, and the run functions `Notifications` and `After`
  over a finite sequence of captures. The class `Watcher` holds the source's mutable state:
  the static `firstScreenshot`, the local `lastScreenshot`, and an outbox of posted bodies.
  Its methods `Begin`, `Tick` and `Poll` call `AreEqual` and are proved against the state
  machine. Lemmas cover the scenarios: the baseline never changes; a frame equal to the
  baseline never notifies; a persistent change notifies once; two successive notifications
  are for differing frames; the previous frame is always the last one that notified.
- `Notifier` (`notifier.dfy`): the payload string, with no escaping. It is the fixed
  prefix, then the message verbatim, then the fixed suffix. The message can be read back
  from the body. Every quote in the message appears in the body.
- `Input` (`input.dfy`): the region of interest in Java `int` arithmetic, which wraps
  around, and the integer prompt over a sequence of tokenised console lines. The prompt is
  modelled the way `Scanner` behaves: `hasNextInt` skips blank lines, and `nextLine`
  discards the current line. It is proved equal to the rule "the first line whose first
  token is an integer supplies the value".

Two behaviours of the code worth knowing:

- Comparing images of different sizes is not "not equal" in the code. A larger second image
  can compare equal (`LargerMayMatch`). A smaller one makes `getRGB` throw, unless a
  differing pixel comes first in scan order. The program itself only compares captures of
  one fixed rectangle, and `Watcher` requires that.
- The body for the message `Hello "World"` is `{"text": "Hello "World""}`. Both quotes of
  the message stay verbatim (`QuotedMessageVerbatim`).

## Model

| member | source | states |
|---|---|---|
| `Bitmaps.AreEqual` | SlackNotify.java:167-185 | Returns true exactly when every pixel within image1's bounds exists in image2 with the same RGB value. Returns false exactly when the column-major scan reaches a differing pixel first. Otherwise it reports the first coordinate where `getRGB` on image2 is out of bounds. It never throws when image2 covers image1. |
| `Bitmaps.FirstStopUnique` | SlackNotify.java:172-181 | The scan with early exit stops at a single well-defined coordinate: two reached coordinates that both stop it are equal. |
| `Bitmaps.MatchesReflexive` | SlackNotify.java:172-184 | An image always compares equal to itself. |
| `Bitmaps.OnePixelDiffers` | SlackNotify.java:179-181 | For same-size images, one differing pixel makes the comparison false. |
| `Bitmaps.MatchesSymmetric` | SlackNotify.java:172-176 | For same-size images, comparing a with b gives the same answer as comparing b with a. |
| `Bitmaps.MatchesIsEquality` | SlackNotify.java:172-184 | For same-size images, the comparison holds exactly when the two bitmaps are identical: an exact, lossless equality. |
| `Bitmaps.SmallerNeverMatches` | SlackNotify.java:172-176 | A second image narrower or shorter than a non-empty first image never compares equal. |
| `Bitmaps.LargerMayMatch` | SlackNotify.java:172-176 | A second image larger than the first can compare equal although the images differ, because only the first image's region is read. |
| `Bitmaps.ScanOrderIrrelevant` | SlackNotify.java:172-173 | When image2 covers image1, a column-first scan and a row-first scan both meet a differing pixel exactly when the images do not match. |
| `Detection.Start` | SlackNotify.java:133-137 | The first capture is both the baseline and the previous frame, so showing that picture again confirms no change. |
| `Detection.IsChange` | SlackNotify.java:151 | A tick confirms a change only for a frame that is a different bitmap from both the previous frame and the baseline. For same-size frames, that is exactly the condition. |
| `Detection.Next` | SlackNotify.java:151-161 | After one tick the baseline is unchanged. The previous frame is either the current frame or the old previous frame. Ticking the same frame again confirms no change. |
| `Detection.Notifications` | SlackNotify.java:143-163 | A run yields exactly one notify decision per captured frame. |
| `Detection.After` | SlackNotify.java:133-163 | After any run the baseline is still the first capture. The previous frame is the initial one or one of the captured frames. |
| `Detection.BaselineNeverNotifies` | SlackNotify.java:151 | A frame equal to the baseline never notifies and leaves the state unchanged. |
| `Detection.RunAppend` | SlackNotify.java:143-163 | Running the loop over two stretches of captures, one after the other, is the same as running it over their concatenation. |
| `Detection.QuietRun` | SlackNotify.java:151 | Frames that each equal the previous frame or the baseline send nothing and leave the state unchanged. |
| `Detection.PersistentChangeNotifiesOnce` | SlackNotify.java:151-161 | After a tick that confirms a change, further ticks showing the same picture send nothing, and the changed frame stays the previous frame. |
| `Detection.RevertToBaselineSilent` | SlackNotify.java:151 | Frames back at the baseline send nothing, even when they differ from the previous frame. |
| `Detection.NotifiedFramesDifferFromBaseline` | SlackNotify.java:151 | Every frame that triggers a notification differs from the baseline. |
| `Detection.PreviousIsLastNotified` | SlackNotify.java:151-161 | After a run, the previous frame is the last frame that notified, or the initial previous frame if nothing notified. |
| `Detection.SuccessiveNotificationsDiffer` | SlackNotify.java:151-161 | Two successive notifications are for frames that differ from each other. |
| `Detection.PollingScenario` | SlackNotify.java:133-162 | Five ticks equal to the baseline send nothing. A one-pixel change sends exactly one notification and becomes the previous frame. A return to the baseline then sends nothing. |
| `Detection.Watcher.constructor` | SlackNotify.java:31-37 | At start there is no screenshot, the message is the configured one, and nothing has been sent. |
| `Detection.Watcher.Begin` | SlackNotify.java:133-141 | The first capture becomes the previous frame. It becomes the baseline only if no baseline was set before. |
| `Detection.Watcher.Tick` | SlackNotify.java:148-162 | The notify decision is the state machine's. The new frames are the state machine's next state. The payload is appended to the outbox exactly when the tick notifies. |
| `Detection.Watcher.Poll` | SlackNotify.java:143-163 | Over a finite sequence of captures, the notifications and the final state are those of the state machine's run. One payload is posted per notification. |
| `Detection.Sent` | SlackNotify.java:151-158 | Exactly one body is posted per notifying tick. Every posted body is the payload of the configured message. |
| `Detection.ScenarioPostsOnce` | SlackNotify.java:151-158 | The scenario's run (five quiet ticks, one change, one revert) posts exactly one body, the configured message's payload. |
| `Notifier.Payload` | SlackNotify.java:88 | The body is the prefix `{"text": "`, then the message, then `"}`, and the message reads back from it unchanged. |
| `Notifier.PayloadVerbatim` | SlackNotify.java:88 | Each character of the message, quotes included, stands unescaped at its offset behind the prefix. |
| `Notifier.PayloadInjective` | SlackNotify.java:88 | Different messages give different bodies. |
| `Notifier.PayloadQuotes` | SlackNotify.java:88 | The body has exactly four quote characters more than the message, so the message's own quotes go in unescaped. |
| `Notifier.QuotedMessageVerbatim` | SlackNotify.java:88 | The message `Hello "World"` gives the body `{"text": "Hello "World""}`. |
| `Input.Wrap` | SlackNotify.java:127 | The result is the `int` congruent to the value modulo 2^32. It is the value itself when that fits in an `int`. |
| `Input.RegionOfInterest` | SlackNotify.java:127 | The rectangle's corner is the top-left corner. Its width and height are congruent modulo 2^32 to the differences of the coordinates. |
| `Input.RegionRecoversCorners` | SlackNotify.java:127 | The rectangle's corner is the top-left corner. In `int` arithmetic its corner plus its extent is the bottom-right corner, for every input. |
| `Input.RegionExtent` | SlackNotify.java:127 | Without overflow, width and height are the coordinate differences. They are zero or negative when the corners are not in order. Nothing at line 127 rejects that; the capture at line 133 throws, outside this model. |
| `Input.UncheckedRegions` | SlackNotify.java:127 | Corners in the wrong order give a negative width. A span wider than `int` range wraps to width -1. |
| `Input.FirstInteger` | SlackNotify.java:212-218 | The value comes from the first line that starts with an integer token. Every earlier line is skipped. There is no value exactly when no line starts with an integer. |
| `Input.NextTokenLine` | SlackNotify.java:212 | The scanner's next token stands on the first non-blank line from the current one, or there is no token left. |
| `Input.HasNextInt` | SlackNotify.java:212 | `hasNextInt` holds exactly when the first non-blank line from the current one starts with an integer. |
| `Input.PromptInteger` | SlackNotify.java:204-223 | The loop (discard the current line while the next token is not an integer, then read the integer and discard the rest of its line) yields exactly `FirstInteger`, or `NoSuchElement` at the end of input. |
| `Input.InvalidThenValid` | SlackNotify.java:212-218 | Typing `abc` and then `42` yields 42. |
| `Input.WholeLinesDiscarded` | SlackNotify.java:212-219 | A line starting with a non-integer is discarded whole, even if an integer follows on it. Blank lines before an integer line are passed over. |

## Left out

- Screen capture with `java.awt.Robot` (SlackNotify.java:130-133, 148) is a native call. Captures are inputs to `Watcher.Begin`, `Watcher.Tick` and `Watcher.Poll`. `createScreenCapture` throws an uncaught `IllegalArgumentException` for a zero or negative width or height; that ending of the program is not part of this model.
- The one-second `Thread.sleep` and the endless `while (true)` (SlackNotify.java:143-145) are timing and non-termination. `Watcher.Poll` runs the loop over a finite sequence of captures.
- The HTTP POST, its connection setup, the `Content-Type` header and the logging of the response code (SlackNotify.java:90-118) are network I/O. The body that would be posted is appended to `Watcher.outbox` instead. An `IOException` and a non-200 response only log and return (SlackNotify.java:109-117).
- Detection.Watcher.Tick: assumes the notifier always returns. For a webhook URL whose scheme does not give an HTTP connection (`file:`, `ftp:`, `mailto:`), the cast at SlackNotify.java:95 throws a `ClassCastException`. Nothing catches it (SlackNotify.java:59, 63, 115), so the program ends at the first notifying tick, while `Tick` and `Poll` keep polling.
- `saveImage` and its `ImageIO.write` (SlackNotify.java:71-80) are best-effort file I/O with logging only.
- `promptString`, the `Scanner` objects on standard input, and `main`'s order of prompts and its `System.exit(0)` calls (SlackNotify.java:40-67, 188-201) are console I/O and process control.
- Input.PromptInteger: every line is taken to end with a line terminator. If the integer stands on a last line without one, `nextLine` at SlackNotify.java:219 throws `NoSuchElementException`, where the model returns `Read`. Console lines are given already split into tokens. Each token is an `int`-range integer or something else, so `Scanner`'s number syntax (signs, locale grouping, range check) is abstracted. Every prompt is assumed to resume at the first unconsumed line, which ignores input buffered by an earlier `Scanner` that `main` then drops.
- Console `println` logging throughout has no behaviour to model.
- Images are values, not `BufferedImage` objects. The program never writes to a screenshot after capture, so the aliasing of `lastScreenshot = currentScreenshot` and `firstScreenshot = lastScreenshot` makes no observable difference.
