# Grounded multi-turn chat demo, training step schedule and prompt templates

A Dafny model of three pieces of a multimodal LLM toolkit.

- **The grounded chat demo** (`accessory/demos/multi_turn_mm_box.py`).
  - A model worker frames the model's stream of cumulative decodings into chunks. It cuts the text at the conversation's turn separator. Until the separator has been seen, it holds back as many trailing characters as the separator is long.
  - The front-end handler waits for the workers' `Ready` signal. It sends every worker the history with `&lt;`/`&gt;` turned back into brackets. It then shows each streamed chunk, escaped, as the bot side of the last turn.
  - On the final chunk, it finds the grounded phrases `<p>phrase</p>[x1,y1,x2,y2,...]` with the regular expression `<p>(.*?)<\/p>\s*(\[[\d.,;\s]*\])` and colours each phrase from a five-colour palette. It then maps the box coordinates from the letterbox square back to picture pixels.
  - The `show_user_input`, `undo` and `clear` buttons edit the history.
- **The step schedule of `train_one_epoch`** (`accessory/engine_kto.py`).
  - Steps are numbered from `start_iter`.
  - The learning rate is set when `s % accum == 0`.
  - A non-finite loss exits with code 1.
  - The optimizer updates (and the gradients are zeroed) when `(s+1) % accum == 0`. The gradient norm must then be present.
  - Metrics are logged every `log_steps` steps at global step `s + len * epoch`.
  - A checkpoint is saved every `interval // accum` updates. That expression divides by zero when `0 <= interval < accum_iter`. A negative interval floors to a negative count instead and does not fail.
- **`format_prompt`** (`accessory/data/system_prompt.py`): the prompt text for an example, chosen by the name of a prompt system. This covers `str.format_map` with its `KeyError`, `strip()` with its `AttributeError` on `None`, and the alpaca input/no-input choice.

Modules (one file each):

| file | module | what it holds |
|---|---|---|
| `wrappers.dfy` | `Wrappers` | `Option`, `Result` |
| `pystr.dfy` | `PyStr` | Python `isspace`, `strip`/`rstrip`, `find`, `replace`, `replace(..., 1)` |
| `html_escape.dfy` | `HtmlEscape` | the `&lt;`/`&gt;` escaping and its inverse |
| `stream_framing.dfy` | `StreamFraming` | the worker's chunk framing |
| `grounding.dfy` | `Grounding` | `re.findall` for the grounding pattern, number tokens, `extract_and_color` |
| `box_drawing.dfy` | `BoxDrawing` | the letterbox arithmetic of `draw_box_on_image` |
| `chat.dfy` | `Chat` | the button handlers and `stream_model_output` |
| `train_schedule.dfy` | `TrainSchedule` | the per-step decisions of `train_one_epoch` |
| `system_prompt.dfy` | `SystemPrompt` | `format_prompt` |

How the model represents the program:

- **Queues** are sequences. The handler's inbound queue is the list of items it will deliver. A worker queue is the list of requests put on it.
- **The generator** `stream_model_output` is modelled by `Chat.Relay`, which returns the list of yielded frames and how the loop ended:
  - finished, with the items still queued;
  - failed, with the exception;
  - blocked, meaning the queue ran dry.
  `Chat.RelayChunks` walks the non-final chunks; `Chat.Relay` then draws the final one with `Chat.Finish`.
- **Exceptions** are `Err` values: `ZeroDivision`, `KeyError`, `AttributeError`, a failed unpack of a box.
- **`sys.exit(1)`** is `Exit(1)`.
- **Python's `//` and `%`** are written out with floor semantics.

## Model

| member | source | states |
|---|---|---|
| PyStr.RStrip | accessory/demos/multi_turn_mm_box.py:124 | `rstrip()` keeps a prefix that does not end in whitespace and drops only whitespace |
| PyStr.Strip | accessory/data/system_prompt.py:41-47 | `strip()` leaves no whitespace at either end, and is empty exactly when the string was all whitespace |
| PyStr.StripIdempotent | accessory/data/system_prompt.py:44-47 | stripping a stripped text changes nothing |
| PyStr.StripPadded | accessory/data/system_prompt.py:41 | whitespace padding around a text is exactly what `strip()` removes |
| PyStr.RStripMonotone | accessory/demos/multi_turn_mm_box.py:124 | `rstrip` preserves the prefix order |
| PyStr.Find | accessory/demos/multi_turn_mm_box.py:121 | `find` is -1 exactly when the separator is absent, and otherwise the lowest index where it occurs |
| PyStr.Replace | accessory/demos/multi_turn_mm_box.py:251 | `replace` leaves a text without the pattern unchanged |
| PyStr.ReplaceAtFirst | accessory/demos/multi_turn_mm_box.py:251-253 | `replace` keeps the text before the leftmost occurrence, puts `rep` in its place and scans the rest the same way |
| PyStr.ReplaceAtFind | accessory/demos/multi_turn_mm_box.py:251-253 | the same in terms of `find`: when `find` reports -1 the text is unchanged, otherwise the occurrence at the reported index is the one replaced |
| PyStr.ReplaceHeadMatch | accessory/demos/multi_turn_mm_box.py:257 | an occurrence at the front is replaced and the scan resumes after it |
| PyStr.ReplaceLeavesNoPattern | accessory/demos/multi_turn_mm_box.py:251 | replacing an entity by a bracket leaves no entity |
| PyStr.ReplaceFirst | accessory/demos/multi_turn_mm_box.py:190 | `replace(..., 1)` splices the replacement in at the leftmost occurrence only, and changes nothing if there is none |
| HtmlEscape.EscapeIsCharwise | accessory/demos/multi_turn_mm_box.py:257 | the two chained `replace` calls equal the character-by-character escape (an independent definition) |
| HtmlEscape.Escape | accessory/demos/multi_turn_mm_box.py:257 | the bot text shown in the chat window never holds a raw `<` or `>` |
| HtmlEscape.Unescape | accessory/demos/multi_turn_mm_box.py:250-253 | the text sent to a worker contains no `&lt;` or `&gt;` at all, and a text that had none (a raw user message, brackets included) is passed on unchanged |
| HtmlEscape.UnescapeIsCharwise | accessory/demos/multi_turn_mm_box.py:251-253 | the two chained `replace` calls equal a one-pass reading that turns every `&lt;` into `<` and every `&gt;` into `>` and copies everything else, so no entity is lost or left behind |
| HtmlEscape.UnescapeEscape | accessory/demos/multi_turn_mm_box.py:251-257 | unescaping the worker copy undoes the display escaping for every text without its own `&lt;`/`&gt;` |
| HtmlEscape.UnescapeLtPass | accessory/demos/multi_turn_mm_box.py:251 | the `&lt;` pass undoes exactly the `<` half of the escape |
| HtmlEscape.UnescapeGtPass | accessory/demos/multi_turn_mm_box.py:251 | the `&gt;` pass undoes the `>` half |
| StreamFraming.FrameRecord | accessory/demos/multi_turn_mm_box.py:116-135 | a record is skipped exactly when it does not end the turn and is shorter than the separator. A sent chunk is final exactly when the separator occurs or the model ended. A non-final chunk is the record minus its last `len(sep)` characters and holds no separator. A cut chunk ends in a newline after separator-free text |
| StreamFraming.CutAtSeparator | accessory/demos/multi_turn_mm_box.py:121-126 | a text holding the separator is cut before it and marked final; any other record passes unchanged |
| StreamFraming.SeparatorTruncation | accessory/demos/multi_turn_mm_box.py:121-126 | with the first separator at `p`, the chunk is `rstrip(text[:p]) + "\n"`, final |
| StreamFraming.WithholdRule | accessory/demos/multi_turn_mm_box.py:128-135 | a non-final record shorter than the separator is withheld; a longer one is sent without its last `len(sep)` characters |
| StreamFraming.Emitted | accessory/demos/multi_turn_mm_box.py:112-141 | at most one chunk per record; only the last chunk can be final, and it is final exactly when some record ends the turn; no non-final chunk contains the separator |
| StreamFraming.WorkerOutput | accessory/demos/multi_turn_mm_box.py:116-141 | with the separator chosen as `sep` for the SINGLE style and `sep2` otherwise: no non-final chunk contains it, only the last chunk can be final, and with the response queue the last chunk is final exactly when some record contains that separator or ends the content; without the queue nothing is sent |
| StreamFraming.StopsAtFirstFinal | accessory/demos/multi_turn_mm_box.py:140-141 | the output is what the records before the first finishing record give, followed by that record's final chunk; later records are ignored |
| StreamFraming.DisplayGrows | accessory/demos/multi_turn_mm_box.py:112-141 | for cumulative decodings, every chunk sent, right-stripped, is a prefix of every later chunk |
| Grounding.TailAtExact | accessory/demos/multi_turn_mm_box.py:157 | the engine's greedy reading of `\s*(\[[\d.,;\s]*\])` finds the bracket part exactly when the pattern allows one, and that reading is unique |
| Grounding.MatchAt | accessory/demos/multi_turn_mm_box.py:157 | a match the engine finds when it tries a position starts there, and its phrase, closing tag and bracket list follow in that order inside the text |
| Grounding.FindAll | accessory/demos/multi_turn_mm_box.py:160 | every match `findall` reports starts at or after the scan position, and its phrase, closing tag and bracket list lie in order inside the text |
| Grounding.LazyClose | accessory/demos/multi_turn_mm_box.py:157 | the lazy `(.*?)` stops at the first `</p>` followed by a bracket list, without crossing a newline, and fails only when there is none |
| Grounding.MatchAtExact | accessory/demos/multi_turn_mm_box.py:157 | the engine's match at a position exists exactly when the declarative pattern matches there, and it has the shortest phrase |
| Grounding.FindAllMatches | accessory/demos/multi_turn_mm_box.py:160 | each match `findall` reports is the engine's match at its start |
| Grounding.FindAllOrdered | accessory/demos/multi_turn_mm_box.py:160 | the reported matches are in order and do not overlap |
| Grounding.FindAllLeftmost | accessory/demos/multi_turn_mm_box.py:160 | no match starts before the first one, between two consecutive ones, or after the last one reported |
| Grounding.DecimalTokens | accessory/demos/multi_turn_mm_box.py:180 | every number collected from a bracket has the shape `\d+\.\d+` |
| Grounding.NoDotNoNumbers | accessory/demos/multi_turn_mm_box.py:180 | a bracket without a dot yields no number |
| Grounding.NumberEnd | accessory/demos/multi_turn_mm_box.py:180 | a match of `\d+\.\d+` at a position ends inside the text, and none starts at a non-digit |
| Grounding.TokenAt | accessory/demos/multi_turn_mm_box.py:180 | a number followed by a non-digit or the end is read whole, and the scan resumes right after it |
| Grounding.SkipNoDigits | accessory/demos/multi_turn_mm_box.py:180 | characters that are not digits, such as `[`, `,`, `;` and spaces, yield nothing |
| Grounding.ListedAt | accessory/demos/multi_turn_mm_box.py:180 | numbers listed with a digit-free separator are read back one by one, in order, and the scan goes on after them |
| Grounding.BracketTokens | accessory/demos/multi_turn_mm_box.py:180 | a bracket such as `[0.12,0.3,0.5,0.77]` yields exactly the numbers listed in it, in order: nothing is missed, split or merged |
| Grounding.DecimalValue | accessory/demos/multi_turn_mm_box.py:180 | `float(tok)` lies between the token's integer part and that plus one |
| Grounding.Annotations | accessory/demos/multi_turn_mm_box.py:174-193 | one annotation per match; the `i`-th is coloured `colors[i % 5]`; all its numbers are decimal tokens |
| Grounding.ExtractAndColor | accessory/demos/multi_turn_mm_box.py:143-195 | the loop returns, per match in order, the phrase, its numbers and the `i`-th palette colour, and equals the reference `Annotations`. The markdown is the text with each phrase's first remaining `<p>phrase</p>` recoloured, in match order |
| Grounding.RecolorSnoc | accessory/demos/multi_turn_mm_box.py:189-190 | each loop step replaces only the leftmost remaining tagged phrase |
| Grounding.NextColorIndex | accessory/demos/multi_turn_mm_box.py:183-193 | the colour counter wraps around the palette in step with the match count |
| BoxDrawing.MaxEdge | accessory/demos/multi_turn_mm_box.py:199 | the square's side is the longer of width and height |
| BoxDrawing.LetterboxOrigin | accessory/demos/multi_turn_mm_box.py:201-206 | offsets are non-negative; one is zero; the picture is centred on both axes up to the odd pixel |
| BoxDrawing.LetterboxUnique | accessory/demos/multi_turn_mm_box.py:201-206 | any offsets that centre both sides are exactly the computed origin |
| BoxDrawing.Boxes | accessory/demos/multi_turn_mm_box.py:210-215 | a points list unpacks exactly when its length is a multiple of four; otherwise it fails on the short last group; box `j` is the mapped group starting at `4j` |
| BoxDrawing.Outline | accessory/demos/multi_turn_mm_box.py:217-218 | the label is anchored 3 pixels right of and below the box's first corner |
| BoxDrawing.DrawItems | accessory/demos/multi_turn_mm_box.py:209-218 | the drawing succeeds exactly when every points list groups by four, with one box per group; box `j` of entry `i` comes after the boxes of the entries before it, and it is that entry's `j`-th group mapped from the square, outlined in the entry's colour, with the entry's name anchored 3 pixels inside its first corner |
| BoxDrawing.DrawBoxOnImage | accessory/demos/multi_turn_mm_box.py:197-220 | a missing picture fails; otherwise the drawing succeeds exactly when all lists group by four |
| BoxDrawing.DrawnEntries | accessory/demos/multi_turn_mm_box.py:197-218 | for an opened picture, every group of four of every entry is drawn at its mapped coordinates, with the entry's name and colour |
| BoxDrawing.FirstItemBoxes | accessory/demos/multi_turn_mm_box.py:209-215 | the first entry's boxes are its groups of four, mapped from the square, with its name and colour |
| BoxDrawing.ToLabeled | accessory/demos/multi_turn_mm_box.py:260-261 | the list handed to the drawing keeps each annotation's phrase, colour and number count |
| Chat.ShowUserInput | accessory/demos/multi_turn_mm_box.py:239-240 | the textbox is cleared and exactly one turn `[msg, None]` is appended |
| Chat.Undo | accessory/demos/multi_turn_mm_box.py:267-270 | an empty history stays empty; otherwise the last turn is dropped |
| Chat.Clear | accessory/demos/multi_turn_mm_box.py:272-275 | empty history, empty textbox |
| Chat.UndoShowUserInput | accessory/demos/multi_turn_mm_box.py:239-270 | undo is the inverse of sending a message |
| Chat.UndoKeepsEarlierTurns | accessory/demos/multi_turn_mm_box.py:267-270 | undo removes one turn and keeps every other |
| Chat.ClearThenMessage | accessory/demos/multi_turn_mm_box.py:239-275 | after a clear, a message gives a one-turn history that undo empties |
| Chat.UnescapeTurn | accessory/demos/multi_turn_mm_box.py:249-253 | a missing side stays missing; both sides come back free of entities; a turn without entities is passed on as it is |
| Chat.UnescapeHistory | accessory/demos/multi_turn_mm_box.py:248-253 | the worker copy has as many turns as the history, keeps which sides are missing, holds no `&lt;` or `&gt;` anywhere, and equals the history when that had none |
| Chat.ShownHistory | accessory/demos/multi_turn_mm_box.py:240-257 | the history in the chat window keeps each user message as typed; a bot reply is stored escaped and holds no raw bracket |
| Chat.UnescapeShownHistory | accessory/demos/multi_turn_mm_box.py:240-257 | a conversation whose texts carry no entities of their own reaches the workers exactly as typed and generated: bot replies lose their escaping, raw user messages pass through |
| Chat.TypedEntityIsUnescaped | accessory/demos/multi_turn_mm_box.py:240-253 | a user message that itself contains `&lt;` reaches the workers with a `<` instead, so the entity-free condition above is needed |
| Chat.DrainToReady | accessory/demos/multi_turn_mm_box.py:243-246 | the wait ends just after the first `Ready`, and never ends without one |
| Chat.DrainSkipsNoise | accessory/demos/multi_turn_mm_box.py:243-246 | whatever arrives before `Ready` is discarded |
| Chat.FanOut | accessory/demos/multi_turn_mm_box.py:247-254 | every worker queue gets exactly one request appended, in queue order |
| Chat.SetLastBot | accessory/demos/multi_turn_mm_box.py:257 | only the bot side of the last turn changes; its user side and every earlier turn stay as they were |
| Chat.Finish | accessory/demos/multi_turn_mm_box.py:259-262 | the final chunk draws exactly when there is a picture and every grounded phrase carries whole groups of four numbers; a missing picture is the drawing error |
| Chat.SetLastBotTwice | accessory/demos/multi_turn_mm_box.py:257 | each chunk overwrites the previous one in the last turn |
| Chat.FinishShows | accessory/demos/multi_turn_mm_box.py:259-261 | a drawn final chunk shows the markdown `extract_and_color` returns for its text, and box `j` of grounded phrase `i` is that phrase's `j`-th group of four numbers mapped from the picture's letterbox square, in the phrase's colour and labelled with it |
| Chat.RelayChunks | accessory/demos/multi_turn_mm_box.py:255-265 | the walk over the non-final chunks shows at most one frame per item, changes only the last turn and shows neither colours nor boxes; when it stops at a final chunk, that chunk is the item right after its frames and the items behind it stay queued |
| Chat.Relay | accessory/demos/multi_turn_mm_box.py:255-265 | at most one frame per item; frames change only the last turn; only the last frame carries a recoloured text and boxes, and it does so exactly when the relay finished, leaving the items behind it queued; which text and boxes is `Chat.RelayFinalColored` |
| Chat.StreamModelOutput | accessory/demos/multi_turn_mm_box.py:242-265 | without `Ready` nothing is sent or shown; otherwise every worker queue gets the request with the unescaped history |
| Chat.RelayNonFinal | accessory/demos/multi_turn_mm_box.py:257-265 | a non-final chunk yields its escaped text with no markdown and no image, and the relay goes on |
| Chat.RelayFinal | accessory/demos/multi_turn_mm_box.py:259-263 | the first final chunk ends the relay, whatever is queued behind it |
| Chat.RelayFinalColored | accessory/demos/multi_turn_mm_box.py:255-262 | when the relay finishes, its last frame comes from an item that is a final chunk; the frame's recoloured text and boxes are that chunk's, as `Chat.FinishShows` states them |
| Chat.RelayFinalShows | accessory/demos/multi_turn_mm_box.py:257-263 | the frame of a final chunk, when there is one, shows that chunk escaped |
| Chat.RelayStream | accessory/demos/multi_turn_mm_box.py:255-265 | one frame per chunk, finishing with later items left queued, unless drawing fails on the last chunk |
| Chat.RelayShowsChunks | accessory/demos/multi_turn_mm_box.py:257 | frame `i` shows chunk `i`, escaped, in the last turn |
| Chat.TurnEndToEnd | accessory/demos/multi_turn_mm_box.py:242-265 | a worker's output for a generation that ends, relayed after `Ready`: one frame per emitted chunk (the last only if its boxes draw), each showing that chunk escaped |
| Chat.StreamAfterReady | accessory/demos/multi_turn_mm_box.py:243-255 | once `Ready` has come, every queue gets one request and the handler relays exactly the items after it |
| Chat.TurnOfStream | accessory/demos/multi_turn_mm_box.py:242-265 | any stream whose last chunk, and only it, is final, relayed after `Ready`: one frame per chunk (the last only if its boxes draw), each showing its chunk escaped |
| TrainSchedule.FloorDiv | accessory/engine_kto.py:104-105 | Python `//` rounds towards minus infinity |
| TrainSchedule.FloorMod | accessory/engine_kto.py:33-93 | Python `%` takes the divisor's sign and satisfies `a == b*(a//b) + a%b` |
| TrainSchedule.FloorDivUnique | accessory/engine_kto.py:104 | the remainder bounds determine the quotient |
| TrainSchedule.UpdateDue | accessory/engine_kto.py:67 | for a positive `accum_iter` the update test is ordinary divisibility of `s + 1` |
| TrainSchedule.AdjustDue | accessory/engine_kto.py:33 | for a positive `accum_iter` the learning rate is set when `accum_iter` divides `s` |
| TrainSchedule.LogDue | accessory/engine_kto.py:93 | for a positive `log_steps` metrics are reduced when `log_steps` divides `s + 1` |
| TrainSchedule.SaveDue | accessory/engine_kto.py:104-105 | for positive operands the save test counts whole windows and divides that count by the updates per save |
| TrainSchedule.Attempt | accessory/engine_kto.py:33-110 | one iteration line by line: it completes exactly when no line divides by zero, the loss is finite and an update step got a grad norm. A failing step keeps what it did before the failing line. The learning rate is set once line 33 has passed. A non-finite loss stops before the update. A missing grad norm comes after the update but before `zero_grad`. A zero `log_steps` fails after the update and `zero_grad` have run as scheduled; a short save interval fails after logging as well; no checkpoint is ever written by a failing step |
| TrainSchedule.Step | accessory/engine_kto.py:33-110 | a step that completes matches the schedule and had a finite loss; a zero `accum_iter` divides by zero; a missing grad norm fails only on an update step; once the learning-rate line has passed, a non-finite loss exits with code 1 |
| TrainSchedule.RunFrom | accessory/engine_kto.py:30-110 | steps are consecutive, each scheduled; the epoch completes exactly when every batch ran, and otherwise halts with the failing step's error and the effects that step had before it raised |
| TrainSchedule.TrainOneEpoch | accessory/engine_kto.py:30-31 | steps are numbered from `start_iter` |
| TrainSchedule.ZeroGradsFollowUpdates | accessory/engine_kto.py:26-82 | counting the call before the loop and the failing step, `zero_grad` runs once more than the weight updates, except after a failed grad-norm assertion, whose update is never followed by its `zero_grad` |
| TrainSchedule.CountDueWindow | accessory/engine_kto.py:67 | steps `k..k+n-1` hold `(k+n)//d - k//d` window ends |
| TrainSchedule.OnceEveryWindow | accessory/engine_kto.py:67 | any `accum_iter` consecutive steps hold exactly one update |
| TrainSchedule.UpdatesCounted | accessory/engine_kto.py:67-75 | the updates of a run are exactly its window ends |
| TrainSchedule.AdjustAfterUpdate | accessory/engine_kto.py:33-67 | the learning rate is set on exactly the step after an update |
| TrainSchedule.NonFiniteLossExits | accessory/engine_kto.py:59-63 | the first non-finite loss ends the epoch with exit code 1, after exactly the steps before it, and that step neither updates, logs nor saves |
| TrainSchedule.CleanEpochCompletes | accessory/engine_kto.py:30-110 | with a sound configuration and clean batches, every batch runs |
| TrainSchedule.SaveEvery | accessory/engine_kto.py:104-105 | saves fall exactly at the steps `s` with `(s+1) % (accum * (interval // accum)) == 0` |
| TrainSchedule.NestedWindows | accessory/engine_kto.py:104-105 | a step ends a window of `a * n` exactly when it ends a window of `a` and the window count is a multiple of `n` |
| TrainSchedule.ShortIntervalFailsAtUpdate | accessory/engine_kto.py:67-105 | with `0 <= interval < accum_iter`, a step fails exactly when it is an update step, with `ZeroDivisionError`, after it has updated, zeroed the gradients and logged as scheduled, and without a checkpoint |
| TrainSchedule.NextWindowEnd | accessory/engine_kto.py:67 | an update step comes within `accum_iter` steps |
| TrainSchedule.ShortIntervalHalts | accessory/engine_kto.py:104-105 | such a run halts inside its first accumulation window |
| TrainSchedule.StopsByWindowEnd | accessory/engine_kto.py:104-105 | with zero updates per save, no run gets past a window end |
| TrainSchedule.GlobalStepInjective | accessory/engine_kto.py:99-101 | within an epoch's steps, the logged global step identifies the epoch and the step |
| SystemPrompt.FormatMap | accessory/data/system_prompt.py:17-50 | `format_map` succeeds exactly when every field's key is present; otherwise it raises `KeyError` for the first missing one |
| SystemPrompt.FormatMapAppend | accessory/data/system_prompt.py:6-15 | filling two templates side by side gives the two texts side by side |
| SystemPrompt.StrippedValue | accessory/data/system_prompt.py:41-47 | `d[key].strip()` raises `KeyError` for a missing key and `AttributeError` for `None`; otherwise the result has no whitespace at its ends |
| SystemPrompt.FormatPrompt | accessory/data/system_prompt.py:3-53 | it returns `None` exactly for an unknown name; only known names other than caption can raise |
| SystemPrompt.FormatPromptDefault | accessory/data/system_prompt.py:3 | the default alpaca system always yields a prompt when it does not raise |
| SystemPrompt.NoInput | accessory/data/system_prompt.py:17 | the no-input branch is taken exactly for a missing, `None` or all-whitespace input |
| SystemPrompt.AlpacaWithoutInput | accessory/data/system_prompt.py:11-18 | a blank input gives the no-input prompt around the instruction |
| SystemPrompt.AlpacaWithInput | accessory/data/system_prompt.py:6-20 | a real input gives the prompt with instruction and input |
| SystemPrompt.MissingInstruction | accessory/data/system_prompt.py:18-50 | every filling system raises `KeyError('instruction')` without an instruction |
| SystemPrompt.ShortQaAndQuestionGeneration | accessory/data/system_prompt.py:22-35 | the shortqa and qg prompt texts around the instruction |
| SystemPrompt.CaptionIsEmpty | accessory/data/system_prompt.py:37-38 | caption always gives the empty prompt |
| SystemPrompt.NoneSystemPassesInstruction | accessory/data/system_prompt.py:49-50 | the `"None"` system passes the instruction through as its text |
| SystemPrompt.StrippedSystems | accessory/data/system_prompt.py:43-47 | dpo and kto return their text stripped, and that is a fixed point of stripping |
| SystemPrompt.NowLlmJoinsStripped | accessory/data/system_prompt.py:40-41 | nowllm joins the stripped input and target, succeeds exactly when both are strings, and looks at the input first |
| SystemPrompt.MisspeltNameGivesNone | accessory/data/system_prompt.py:52-53 | as written, a misspelt name such as `"Alpaca"` gives `None` where the checked version raises |
| SystemPrompt.FormatPromptChecked | accessory/data/system_prompt.py:52-53 | the evidently intended behaviour: `ValueError` exactly for unknown names; known names behave as `format_prompt` does |

## Left out

- Model worker setup: loading, GPU placement, distributed initialisation and the barrier are left out. They have no logic the demo's output depends on.
- `model.stream_generate`: the records it yields are a parameter of `StreamFraming.Emitted`. The model itself is foreign code.
- The conversation library (`conv_templates`, `SeparatorStyle`) is not part of this model. The separator style and separators are parameters. Only SINGLE versus every other style matters.
- Real queues: blocking, process boundaries and liveness are left out. A queue is the finite list of items it will deliver. A queue that runs dry is the `Blocked` ending.
- The Gradio UI layout and event wiring are left out. Only the handlers are modelled.
- Pillow: opening the image file, the RGB conversion, the pixels drawn, and the font are left out. A picture is its size, or none when it cannot be opened. A box is its coordinates and label anchor.
- BoxDrawing.DrawBoxOnImage: does not model Pillow rejecting a rectangle whose second corner lies before its first. Such boxes are accepted.
- Chat.Relay: when drawing fails, Python has already written the final chunk into the history before raising. The model reports the failure without a frame and does not return that history.
- Floating point: `float(tok)` is an exact decimal `real`, so IEEE rounding is left out. The learning-rate epoch `s / len + epoch` is exact as well.
- Grounding.IsDigit: `\d` is read as the ASCII digits. Python's Unicode digits are not modelled.
- PyStr.Replace: requires a non-empty pattern. Every pattern in the modelled code is non-empty.
- Torch numerics are left out: the forward pass, the loss value, the loss scaler and gradient clipping. Each batch is reduced to whether its loss is finite and whether a grad norm came back. The `isinf(grad_norm)` branch only chooses what is logged.
- The `precision` lookup (`KeyError` for an unknown precision) is left out. It is configuration, not scheduling.
- `MetricLogger`, `all_reduce_mean` and the writers' payloads are left out. The model records whether a log happens and at which global step.
- The wandb/tensorboard choice is left out. Both write at the same global step.
- The checkpoint contents are left out. The model records only whether a save happens.
- SystemPrompt: dictionary values other than strings and `None` (numbers, lists) are not modelled.

Note on the save cadence: when the interval `I` is not a multiple of `accum_iter = a`, checkpoints fall every `(I // a) * a` steps rather than every `I` (`TrainSchedule.SaveEvery`). This follows the code.

## Findings

| source | as written | input that shows it | evidently intended | confidence | as-written member | corrected member |
|---|---|---|---|---|---|---|
| accessory/data/system_prompt.py:52-53 | the final `else` builds `ValueError(sys_name)` without `raise`, so the function returns `None` | `format_prompt(d, "Alpaca")` | `raise ValueError(sys_name)` for an unknown name | high; not executed | SystemPrompt.MisspeltNameGivesNone | SystemPrompt.FormatPromptChecked |
