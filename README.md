# clova-up completion bridge in Dafny

This project models the text protocol in `clova_util.py`, which sits between
the clova-up chat bot and the CLOVA Studio completion endpoint. There are
three parts:

- **Prompt flattening** (`clova_create`, the loop at lines 62-69). A list of
  `{"role", "content"}` turns becomes one request text:
  - a user turn becomes `"질문: " + content + "\n"`;
  - an assistant turn becomes `"답변: " + content + "\n"`;
  - every other role contributes nothing;
  - the opaque preamble `MAIN_PROMPT` goes in front.
- **Response post-processing** (lines 97-110):
  - a status code other than `"20000"` yields `{"error": message}`;
  - otherwise the echoed prompt is dropped when the completion starts with
    it, the rest is stripped, one leading `"답변: "` is dropped, and the
    remainder goes to answer extraction;
  - the result is `{"role": "assistant", "content": …}`.
- **Answer extraction** (`extract_first_answer`, lines 16-36).
  - If `"답변:"` occurs, keep piece 1 of `split("답변:")`, stripped.
    Otherwise keep the whole input.
  - If `"질문:"` then occurs, keep piece 0 of `split("질문:")`, stripped.

Files:

- `pystr.dfy` (module `PyStr`): the parts of Python's `str` that the source
  uses.
  - `sub in s` is `Contains`, built on the `str.find` scan `Find`/`FindFrom`.
  - `str.split` for a non-empty separator is `Split`/`SplitFrom`, and
    `sep.join(parts)` is `Join`. The source never calls `join`; `Join` is
    there to state that splitting loses nothing (`JoinSplit`).
  - `str.strip` is `Strip` (`LStrip` then `RStrip`). It uses the actual
    `str.isspace()` character set rather than an abstract predicate.
  - The `s[len(p):] if s.startswith(p) else s` idiom is `RemovePrefix`.
  - The functions carry quantifier-free contracts. Each-index facts (no
    earlier occurrence, no separator inside a piece, only whitespace dropped)
    are separate lemmas.
- `clova_util.dfy` (module `ClovaUtil`):
  - the data: `Message`, the endpoint's `Response`, and the returned
    `Completion`;
  - the pure specification functions `Render`, `Turns`, `Prompt`,
    `ExtractFirstAnswer` and `PostProcess`;
  - the imperative `ClovaCreate` method;
  - the lemmas about all of these.

`ClovaCreate` mirrors the source step by step. A `for` loop extends the text
by concatenation, as the source's `+=` does, and its invariant is
`text == Turns(messages[..i])`. The output is then rebound through prefix
removal, strip, tag removal and extraction. The method's postcondition ties the result to `PostProcess(Prompt(messages), …)`.

The HTTP call is the parameter `api: string -> Response`. `Response` is
either `Answered(code, message, text)`, the three decoded fields, or
`Failed(cause)`, the text of any exception raised on the way.
`MainPrompt` is an uninterpreted constant.

Two details of `extract_first_answer` the model keeps:

- `s.split("답변:")[1]` is the segment strictly between the first and second
  `답변:` (`ExtractAnswerSegment`).
- An input with neither marker is returned untrimmed (`ExtractResult`).

## Model

| member | source | states |
|---|---|---|
| ClovaUtil.Render | clova_util.py:64-67 | Definition of one turn's text: `"질문: " + content + "\n"` for a user turn, `"답변: " + content + "\n"` for an assistant turn, empty otherwise. Its properties are `RenderHoldsMarker` and `TurnsSkipsOtherRoles`. |
| ClovaUtil.Turns | clova_util.py:62-67 | Definition of the flattened turns, oldest first. Its properties are `TurnsConcat` and `TurnsAt`, and the `ClovaCreate` loop is proved to compute it. |
| ClovaUtil.Prompt | clova_util.py:62-69 | The request text starts with `MAIN_PROMPT`, and what follows the preamble is exactly the rendered turns. |
| ClovaUtil.TurnsConcat | clova_util.py:63-67 | Flattening keeps order: flattening `a + b` gives the flattening of `a` followed by that of `b`. |
| ClovaUtil.TurnsAt | clova_util.py:63-67 | The rendering of turn `i` appears in the flattened text after the renderings of all earlier turns and before those of all later turns. |
| ClovaUtil.TurnsSkipsOtherRoles | clova_util.py:64-67 | A turn whose role is neither `user` nor `assistant` leaves the flattened text unchanged. |
| ClovaUtil.RenderHoldsMarker | clova_util.py:64-67 | A user turn's rendering starts with, and so contains, the question marker. An assistant turn's rendering starts with the answer marker. |
| ClovaUtil.PromptHoldsMarker | clova_util.py:62-69 | Once the conversation has a user turn, the question marker occurs in the prompt. Once it has an assistant turn, the answer marker occurs. |
| ClovaUtil.ExtractFirstAnswer | clova_util.py:16-36 | Definition of `extract_first_answer`. Its properties are `ExtractResult`, `ExtractAnswerSegment`, `ExtractQuestionOnly` and the example lemmas below. |
| ClovaUtil.ExtractResult | clova_util.py:16-36 | The answer is a contiguous piece of the input and contains neither `답변:` nor `질문:`. When neither marker occurs, it is the input itself, untrimmed. When either occurs, it has no whitespace at either end. |
| ClovaUtil.ExtractAnswerSegment | clova_util.py:22-34 | Suppose `답변:` first occurs at `i` and next at `j`, or never again with `j` the end. Then the answer is the stripped segment between them, cut before its first `질문:` and stripped again, or the segment itself when it has no `질문:`. |
| ClovaUtil.ExtractQuestionOnly | clova_util.py:27-34 | Without `답변:`, the answer is the stripped prefix before the first `질문:`. |
| ClovaUtil.ExtractAnswerExample | clova_util.py:22-34 | `"답변: X\n질문: Y"` gives `X` for every `Y`, when `X` holds no marker and has no whitespace at either end. |
| ClovaUtil.AnswerExampleSegment | clova_util.py:22-26 | In `"답변: X\n질문: Y"` the answer marker occurs. Piece 1 of the split is `" X\n질문: "` followed by piece 0 of `Y`'s own split. |
| ClovaUtil.AnswerExampleCut | clova_util.py:26-32 | Stripping `" X\n질문: Z"` keeps the question marker, and the piece before it, stripped, is `X`. |
| ClovaUtil.ExtractQuestionExample | clova_util.py:27-34 | `"X\n질문: Y"` gives `X` when neither `X` nor `Y` holds `답변:`. |
| ClovaUtil.ExtractBareMarker | clova_util.py:22-34 | The bare marker `"답변:"` gives the empty answer. |
| ClovaUtil.PostProcess | clova_util.py:97-113 | A failed call gives an error carrying its cause. A status code other than `"20000"` gives an error carrying the status message. `"20000"` gives an assistant message. |
| ClovaUtil.PostProcessReply | clova_util.py:99-108 | A successful reply is a contiguous piece of the completion text and contains neither marker. |
| ClovaUtil.PostProcessEcho | clova_util.py:99-101 | A completion that starts with the prompt is processed as if only what follows the prompt had been sent. |
| ClovaUtil.PostProcessNoEcho | clova_util.py:99-101 | A completion that does not start with the prompt is processed whole, as if there were no prompt to drop. |
| ClovaUtil.PostProcessUntags | clova_util.py:103-108 | Exactly one leading `"답변: "` is dropped after stripping. What follows goes to extraction even when it starts with the tag again. |
| ClovaUtil.PostProcessExample | clova_util.py:97-108 | A completion `prompt + "답변: X\n"` gives the assistant message `X`. |
| ClovaUtil.EchoedReplyUntagged | clova_util.py:99-105 | After echo removal, strip and tag removal, `prompt + "답변: X\n"` leaves `X`. When `X` is empty it leaves the bare marker `"답변:"`. |
| ClovaUtil.ReplyNeverEchoesPrompt | clova_util.py:62-108 | If the conversation has a user or assistant turn, a successful reply never contains the whole prompt. |
| ClovaUtil.ClovaCreate | clova_util.py:62-110 | The completion returned is the post-processing of the endpoint's answer to the flattened prompt. The loop keeps the text equal to the flattening of the turns seen so far. |
| PyStr.FindFrom | clova_util.py:22 | The scan returns -1 or an index at or after its start where the substring occurs. |
| PyStr.FindFromSkipsNone | clova_util.py:22 | No occurrence lies between the scan's start and the index it returns, or anywhere after the start when it returns -1. |
| PyStr.Find | clova_util.py:22 | `find` returns -1 or an index where the substring occurs. |
| PyStr.FindIsFirst | clova_util.py:22 | The index `find` returns is the first occurrence. |
| PyStr.FindOf | clova_util.py:22 | The first occurrence is what `find` returns. |
| PyStr.Contains | clova_util.py:22 | Definition of `sub in s` as `find` not returning -1. Its properties are `ContainsAt`, `ContainsTrans` and `ContainsAround`. |
| PyStr.ContainsAt | clova_util.py:22 | An occurrence at any index makes `sub in s` true. |
| PyStr.ContainsTrans | clova_util.py:24-32 | Being a contiguous piece is transitive. |
| PyStr.ContainsAround | clova_util.py:22-31 | When `c` is not a character of `sub`, `sub in a + [c] + b` exactly when `sub in a` or `sub in b`. |
| PyStr.SplitFrom | clova_util.py:24 | There is at least one piece, and more than one exactly when the separator occurs from the start index on. |
| PyStr.Split | clova_util.py:24 | `split` gives at least one piece, and more than one exactly when the separator occurs. |
| PyStr.Join | clova_util.py:24 | Definition of `sep.join(parts)`, which the source does not call. It is the inverse against which `JoinSplit` states that `split` loses nothing. |
| PyStr.JoinSplit | clova_util.py:24 | Joining the pieces with the separator gives the original string back. |
| PyStr.SplitPartFree | clova_util.py:24-26 | No piece contains the separator. |
| PyStr.SplitPartInfix | clova_util.py:24-26 | Every piece is a contiguous piece of the input. |
| PyStr.SplitFromPartBounds | clova_util.py:24-26 | Every piece of a split starting at `from` is a slice of the input that begins at or after `from`. |
| PyStr.SplitHead | clova_util.py:32 | Piece 0 is the prefix before the first occurrence. |
| PyStr.SplitSecond | clova_util.py:24-26 | Piece 1 is the segment between the first occurrence and the next, or the end. |
| PyStr.SplitNone | clova_util.py:24 | Without the separator, the split is the input alone. |
| PyStr.SplitLeading | clova_util.py:24-26 | A string that starts with the separator has an empty piece 0. Its piece 1 is piece 0 of the rest. |
| PyStr.SplitHeadAround | clova_util.py:24-32 | Suppose `p` holds no separator and `c` is not a character of the separator. Then piece 0 of `p + [c] + q` is `p + [c]` followed by piece 0 of `q`. |
| PyStr.IsSpace | clova_util.py:26 | Definition of the code points `str.strip()` removes here and at lines 32 and 103: CPython's `str.isspace()` set (U+0009–U+000D, U+001C–U+001F, U+0020, U+0085, U+00A0, U+1680, U+2000–U+200A, U+2028, U+2029, U+202F, U+205F, U+3000). Its properties are `LStripDropsSpace`, `RStripDropsSpace` and `StripPadded`. |
| PyStr.LStrip | clova_util.py:26 | `lstrip` leaves a suffix that does not start with whitespace. |
| PyStr.RStrip | clova_util.py:26 | `rstrip` leaves a prefix that does not end with whitespace. |
| PyStr.LStripDropsSpace | clova_util.py:26 | Everything `lstrip` drops is whitespace. |
| PyStr.RStripDropsSpace | clova_util.py:26 | Everything `rstrip` drops is whitespace. |
| PyStr.Strip | clova_util.py:26 | `strip` leaves a contiguous piece of its input with no whitespace at either end. |
| PyStr.StripEmpty | clova_util.py:26 | `strip` gives the empty string exactly when the input is all whitespace. |
| PyStr.LStripOf | clova_util.py:26 | `lstrip` removes exactly a leading run of whitespace. |
| PyStr.RStripOf | clova_util.py:26 | `rstrip` removes exactly a trailing run of whitespace. |
| PyStr.StripPadded | clova_util.py:103 | A string with no whitespace at either end, padded with whitespace on both sides, strips back to itself. |
| PyStr.StripIdempotent | clova_util.py:103 | Stripping twice is stripping once. |
| PyStr.RemovePrefix | clova_util.py:100-101 | When the string starts with `p`, `p` followed by the result is the string. Otherwise the result is the string unchanged. |
| PyStr.RemovePrefixOf | clova_util.py:104-105 | Dropping a prefix the string starts with leaves exactly the rest. |
| PyStr.RemovePrefixInfix | clova_util.py:100-105 | What is left after dropping a prefix is a contiguous piece of the input. |

## Left out

- The HTTP request, `raise_for_status`, JSON decoding, the field lookups and the catch-all `except` (clova_util.py:88-96, 111-113) are network I/O and foreign code. Every way they can fail is folded into `Failed(cause)`. How `str(e)` renders the exception is not modelled: the cause is whatever text the caller supplies.
- The decoded fields are typed as strings. In the source, a numeric `status.code` compares unequal to `"20000"` and takes the error branch, which any other code string covers. A non-string `result.text` would raise inside the `try` and end as an error, which is a `Failed` here.
- The header construction, the environment variables and the `uuid4` default request id (clova_util.py:11-13, 42, 55-60) are configuration and randomness, and do not affect the text protocol.
- The generation parameters (clova_util.py:43-53, 73-86) are passed through to the endpoint unchanged.
- `print` calls and the `__main__` demo (clova_util.py:71, 112, 116-121) are console output only.
- The `isinstance` check in `extract_first_answer` (clova_util.py:18-19) cannot fail here, because inputs are typed strings.
- `str(message["content"])` on non-string content is not modelled: contents are strings. Nor is the `KeyError` raised outside the `try` (clova_util.py:64-67) by a turn without `role`, or by a user or assistant turn without `content`: messages always have both fields. A turn of any other role without `content` raises nothing in the source, and its rendering is empty here too.
- The text of `MAIN_PROMPT` is not modelled, because `prompts.py` is not part of this model. `MainPrompt` is an uninterpreted constant.
- `clova_up.py` (Telegram handlers, message persistence, reloading) is not part of this model.
- `Split` covers only non-empty separators. Python raises `ValueError` on an empty one, and the source splits only on the two literal markers.
