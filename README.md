# AWS architecture diagram generator — a Dafny model of its text handling

The generator asks the user for a plain-language description of an AWS
architecture, sends it to a model on Amazon Bedrock, pulls the Python
`diagrams` script out of the reply, saves it and optionally runs it. This
project models the deterministic part of that workflow in
`aws_architecture_generator.py` and proves what it does:

- `extract_python_code` (`extraction.dfy`): the first ```` ```python ````
  block wins over a bare `from diagrams import`; text with neither comes
  back unchanged. Python's `find`, slicing (negative bounds included) and
  `strip` are modelled in `pystr.dfy`.
- The line-collection loop of `get_user_description` (`description.dfy`):
  the console is the sequence of lines it will deliver; the loop keeps
  lines until one whose lower-case form is `done` and joins them with
  line feeds. Running out of input (`EOFError`) gives `None`.
- The response handling of `invoke_bedrock_model` (`response.dfy`):
  the text of the `content` items of type `"text"`, else `completion`,
  else the rendering of the whole body; and the token counts.
- The early exits of `main` and the `y` answer that runs the script
  (`driver.dfy`).

`strip()` removes exactly the characters for which Python's
`str.isspace()` holds: tab, line feed, vertical tab, form feed, carriage
return, 0x1C-0x1F, space, 0x85, 0xA0, U+1680, U+2000-U+200A, U+2028,
U+2029, U+202F, U+205F and U+3000.

## Model

| member | source | states |
|---|---|---|
| PyStr.Find | aws_architecture_generator.py:135-136 | the result is the lowest index at or after the start where the pattern occurs, or -1 exactly when it occurs nowhere from there; from 0 it is not -1 exactly when the pattern is `in` the text |
| PyStr.Slice | aws_architecture_generator.py:137 | Python slicing: the result is a piece of the string; in-range bounds give that piece; an end of -1 stops one character before the end; a start at or past the end with end -1 gives the empty string |
| PyStr.Strip | aws_architecture_generator.py:137 | `strip()`: the result is the slice with only whitespace around it that neither starts nor ends with whitespace |
| PyStr.StripIdempotent | aws_architecture_generator.py:145 | stripping twice is stripping once |
| PyStr.Lower | aws_architecture_generator.py:20 | the ASCII-only `lower()` of the model keeps the length of the string |
| PyStr.SplitJoin | aws_architecture_generator.py:24 | joining at least one line-feed-free part with `"\n"` and splitting again gives the parts back |
| PyStr.JoinSplit | aws_architecture_generator.py:24 | splitting on a character and joining with it again gives the string back |
| PyStr.JoinEmpty | aws_architecture_generator.py:24 | a join is empty exactly when there are no parts or one empty part |
| CodeExtraction.CodeStart | aws_architecture_generator.py:135 | when the text holds an opening fence, the code starts within the text, at least 9 characters in |
| CodeExtraction.CodeStartFollowsFence | aws_architecture_generator.py:135 | the code starts right after the first occurrence of ```` ```python ```` |
| CodeExtraction.ExtractPythonCode | aws_architecture_generator.py:130-149 | the script is never longer than the text |
| CodeExtraction.ExtractIsSlice | aws_architecture_generator.py:130-149 | the script is always one contiguous piece of the text |
| CodeExtraction.ExtractWithoutMarkers | aws_architecture_generator.py:141-149 | text with neither ```` ```python ```` nor `from diagrams import` is returned exactly, not stripped |
| CodeExtraction.FenceHasTick | aws_architecture_generator.py:133 | a text with an opening fence always has a fence, so the second test of the first branch never decides anything |
| CodeExtraction.FencedBranch | aws_architecture_generator.py:133-138 | with an opening fence the first branch is taken, whatever else the text holds |
| CodeExtraction.ClosedBlock | aws_architecture_generator.py:133-138 | with a closing fence after the opening one, the script is the stripped text between them (start at the fence's index + 9), holds no ```` ``` ```` and has no leading or trailing whitespace |
| CodeExtraction.UnclosedBlock | aws_architecture_generator.py:135-138 | with no closing fence, the script is the stripped text from the end of the fence to one character before the end of the text, or empty when the fence ends the text |
| CodeExtraction.FenceAtEnd | aws_architecture_generator.py:135-138 | a text that ends with its first opening fence gives an empty script |
| CodeExtraction.UnclosedBlockDropsLastChar | aws_architecture_generator.py:136-137 | for ```` ```python ```` followed by backtick-free code, the script is that code without its last character, stripped |
| CodeExtraction.FenceBeatsAnchor | aws_architecture_generator.py:133-146 | for `pre + "```python" + body + "```" + post`, with no opening fence in `pre`, and `body` holding no ```` ``` ```` and not ending with a backtick (a backtick just before the closing fence would be absorbed into it), the script is the stripped `body`, even when `pre` holds `from diagrams import` |
| CodeExtraction.AnchorBranch | aws_architecture_generator.py:141-146 | without an opening fence, the script is the stripped suffix from the first `from diagrams import`, begins with that phrase, and extracting it again returns it unchanged |
| Description.CollectLines | aws_architecture_generator.py:17-24 | the kept lines are exactly the input before its first `done` line (any letter case); with no such line the result is absent |
| Description.GetUserDescription | aws_architecture_generator.py:17-24 | the loop returns `"\n".join` of the lines before the first `done` line, and nothing when the input ends first |
| Description.DoneSpellings | aws_architecture_generator.py:20 | `done`, `DONE` and `Done` end the input; `" done"`, `"done "`, `don` and the empty line do not |
| Description.SpacedLineNeverDone | aws_architecture_generator.py:20 | a line holding any whitespace never ends the input |
| Description.CollectIgnoresLaterInput | aws_architecture_generator.py:18-22 | the terminating line and everything after it are never part of the description |
| Description.DescriptionDeterminesLines | aws_architecture_generator.py:19-24 | a non-empty list of console lines can be recovered from the description by splitting at line feeds |
| BedrockResponse.TextParts | aws_architecture_generator.py:95-98 | no more parts are collected than there are items |
| BedrockResponse.TextPartsAppend | aws_architecture_generator.py:96-98 | the parts keep the order of the items |
| BedrockResponse.TextPartsMembers | aws_architecture_generator.py:96-98 | a string is a part exactly when some item of type `"text"` has it as text, a missing text counting as `""` |
| BedrockResponse.TextPartsCount | aws_architecture_generator.py:96-98 | there is one part per item of type `"text"` and none for other items |
| BedrockResponse.SelectGeneratedText | aws_architecture_generator.py:94-106 | non-empty `content` gives the `"\n"`-join of its text parts; otherwise `completion` when present; otherwise the rendering of the body |
| BedrockResponse.CountTokens | aws_architecture_generator.py:109-111 | the total is input plus output tokens, each defaulting to 0 when it or `usage` is missing |
| Driver.Run | aws_architecture_generator.py:230-243 | the run ends for lack of input exactly when the input has no `done` line; a script is produced only from the description collected from the input, when it is non-empty and the model's text for it is non-empty, and is the extraction of that text; conversely such a description and text always produce that script |
| Driver.NoDescriptionExactly | aws_architecture_generator.py:231-234 | the run stops for lack of a description exactly when the first line is `done`, or the first line is empty and the second is `done` |
| Driver.GenerationGuard | aws_architecture_generator.py:237-240 | after a non-empty description, the run stops exactly when the model call failed or gave empty text |
| Driver.WantsToRunExactly | aws_architecture_generator.py:255-256 | only the answers `y` and `Y` run the script |

## Left out

- The Bedrock call through `boto3`, the prompt, the request body and JSON encoding and decoding (aws_architecture_generator.py:28-91): a network call and foreign libraries. `Driver.Run` takes the call's outcome as the parameter `generate`, with `None` for the exception path of lines 126-128.
- `str(response_body)` (line 106) depends on Python's rendering of dictionaries; it is the opaque parameter `repr`.
- JSON values of an unexpected kind are not modelled: a `null` `text` (which makes `join` raise and the call return `None`), a `null` `completion` (which returns `None`), a `content` that is not a list, or a `type` that is not a string. Every field is either absent or of the expected kind.
- The printed token report and the token log line with its `datetime.now()` timestamp (lines 113-122): console and file output.
- `save_diagram_script` and the write of the description file (lines 151-159 and 245-249): file output.
- `run_diagram_script` and `check_dependencies` (lines 161-219): running processes and probing the installation.
- The prompts and messages printed by `get_user_description` and `main`, the console `input()` itself, and `main`'s handlers for `KeyboardInterrupt` and other exceptions.
- PyStr.Lower: maps only the ASCII letters; Python's full Unicode case mapping is not modelled. The only strings compared after `lower()` are `done` and `y`, and no non-ASCII character lowers to one of their letters.
- generated_aws_diagram.py and generated_aws_diagram_250.py are scripts produced by a run; they only build nodes and edges through the `diagrams` library and have no logic of their own.
- Catalog indexing and the validation and repair of imports: the generator's code has none, so there is nothing to model.
