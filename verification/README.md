# No as a Service: a Dafny model of the refusal route and page

"No as a Service" is a small Next.js application. A user describes something
they want to refuse and picks a tone: normal, moderate or savage. The page
posts that text to the route `/api/gemini`. The route wraps the text in one of
three prompt templates, sends it to a language model, strips markdown emphasis
from the reply and returns it. The page then shows the reply, one block per
line, with numbered lines drawn as items with a badge.

This project models the logic inside those two files, without the network,
JSON or UI shell around it:

- `wrappers.dfy` (module `Wrappers`): the `Option` type.
- `js_text.dfy` (module `JsText`): the JavaScript string operations the code
  relies on:
  - `trim()`, with the ECMAScript white space and line terminator set;
  - `split` on one character, with `Join` as its inverse;
  - the character classes of `.`, `\s` and `\d`.
- `route.dfy` (module `Route`): the POST handler as a pure function `Handle`
  from a request and an upstream call to a status and a JSON body. It covers:
  - the mode default and the template table with its fallback;
  - the two emphasis-stripping `replace` passes, as one lazy, non-overlapping,
    left-to-right scanner `StripEmphasis`, used with `**` and then with `*`;
  - the `trim`, the apology fallback, and the error statuses.
- `page.dfy` (module `Page`): the client component. It has two parts:
  - a class `NoAsAService` holding the component's state (`prompt`,
    `response`, `selectedMode`, `isLoading`), whose methods are the state
    updates of `handleGenerate`, the mode buttons and the prompt box;
  - pure functions for the rendering of the response: split on `'\n'`, blank
    lines dropped, `/^(\d+\.\s*)(.*)/` classification, and the badge.

The upstream call is the parameter `upstream: string -> Upstream` of
`Route.Handle`. The prompt actually sent is therefore visible to the contracts.
A call that never returns normally, whether the fetch or the decoding of its
JSON threw, is the value `CallThrew`. So is an upstream reply that makes the
handler throw while reading it: a success body that is JSON `null` (reading
`data.candidates` throws) or a `text` that is not a string (`.replace` throws).
Both end in the `catch` with status 500, which is the reply `Handle` gives for
`CallThrew`. The page's own fetch is the parameter `outcome: FetchOutcome` of
`HandleGenerate`.

Strings are sequences of Unicode scalar values, not of JavaScript's UTF-16 code
units. Nothing here depends on the difference: every delimiter, line terminator
and white-space character the code looks at lies in the Basic Multilingual
Plane, so each is one code unit in JavaScript and one character here.

## Model

| member | source | states |
|---|---|---|
| `JsText.Trim` | src/app/api/gemini/route.js:55 | the result has no white space or line terminator at either end; it is a slice of the input with only white space cut on both sides; it is empty exactly when the input is all white space; an input already trimmed is returned unchanged |
| `JsText.Split` | src/app/page.js:198 | there is at least one piece; no piece holds the separator; joining the pieces with the separator gives back the input |
| `Route.ResolveMode` | src/app/api/gemini/route.js:5 | no contract of its own: the destructuring default, an absent mode becoming "normal"; specified by `ToneSelection`, `MissingModeIsNormal` and the echo clause of `Handle` |
| `Route.PromptText` | src/app/api/gemini/route.js:12 | no contract of its own: an absent prompt interpolates as the text "undefined"; used by `SelectedPrompt` |
| `Route.Template` | src/app/api/gemini/route.js:12-22 | no contract of its own: the three templates with the prompt interpolated; specified by `TemplateQuotesPrompt`, `TemplatesDistinct` and `TemplateDeterminesPrompt` |
| `Route.SelectedTone` | src/app/api/gemini/route.js:25 | no contract of its own: the table lookup with its fallback to the normal template, as a tone; specified by `ToneSelection` and `UnknownModeUsesNormal` |
| `Route.SelectedPrompt` | src/app/api/gemini/route.js:11-25 | no contract of its own: the prompt sent upstream; specified by `ToneSelection`, `UnknownModeUsesNormal` and `Page.ModeIdSelectsItsTemplate` |
| `Route.ToneOf` | src/app/api/gemini/route.js:11-25 | the table lookup finds a tone exactly for that tone's key and for no other string |
| `Route.ToneSelection` | src/app/api/gemini/route.js:5-25 | a missing mode selects the normal template; each of the three keys selects its own template; any other mode string falls back to the normal template |
| `Route.MissingModeIsNormal` | src/app/api/gemini/route.js:5 | a request without a mode gets exactly the reply of the same request with mode "normal" |
| `Route.UnknownModeUsesNormal` | src/app/api/gemini/route.js:25 | a mode that is not a table key sends the normal template, with the prompt in it |
| `Route.TemplateQuotesPrompt` | src/app/api/gemini/route.js:12-22 | every template contains the prompt verbatim between two double quotes, right after its opening sentence |
| `Route.TemplatesDistinct` | src/app/api/gemini/route.js:12-22 | for the same prompt, the templates of two different tones differ |
| `Route.TemplateDeterminesPrompt` | src/app/api/gemini/route.js:12-22 | a template is injective in the prompt: equal prompts sent means equal user texts, even when the text holds quotes |
| `Route.FindClose` | src/app/api/gemini/route.js:53-54 | the lazy `(.*?)` closes at the first occurrence of the delimiter after the opening one with no line terminator before it; when it finds none, there is no such occurrence on that line |
| `Route.StripEmphasis` | src/app/api/gemini/route.js:53-54 | no contract of its own: one global `replace` pass with delimiter `**` or `*`; specified by `StripDeletesOnlyStars`, `ItalicLeavesOneStarPerLine`, `StripWrapped`, `StripWithoutDelimiter` and `StripAfterStarFree` |
| `Route.Unemphasize` | src/app/api/gemini/route.js:52-54 | no contract of its own: the bold pass then the italic pass; specified by `UnemphasizeDeletesOnlyStars` and `UnemphasizeLeavesOneStarPerLine` |
| `Route.Clean` | src/app/api/gemini/route.js:52-55 | no contract of its own: both passes then `trim()`; specified by `CleanBold`, `CleanItalic`, `CleanStarFree`, `CleanLeadingBold` and `JsText.Trim` |
| `Route.DeletesOnlyStarsMeaning` | src/app/api/gemini/route.js:52-54 | "deletes only asterisks" holds exactly when the output is a subsequence of the input with the same non-asterisk characters, and then it is no longer |
| `Route.StripDeletesOnlyStars` | src/app/api/gemini/route.js:53-54 | either replace pass (delimiter `**` or `*`) only deletes asterisks |
| `Route.UnemphasizeDeletesOnlyStars` | src/app/api/gemini/route.js:52-54 | both passes together only delete asterisks: the result is a subsequence, no longer, with the same characters once asterisks are removed |
| `Route.ItalicLeavesOneStarPerLine` | src/app/api/gemini/route.js:54 | after the italic pass, read left to right, no line holds a second asterisk |
| `Route.ItalicMatch` | src/app/api/gemini/route.js:54 | a matched italic span's content holds no asterisk and no line terminator, the pass keeps that content and resumes right after the closing `*` |
| `Route.ItalicUnmatched` | src/app/api/gemini/route.js:54 | an opening `*` with no closing one on its line is kept, and no other `*` follows it on that line |
| `Route.OneStarPerLineMeaning` | src/app/api/gemini/route.js:54 | the left-to-right reading implies that no two asterisks of the text are on one line |
| `Route.UnemphasizeLeavesOneStarPerLine` | src/app/api/gemini/route.js:52-54 | after both passes no two asterisks lie on one line |
| `Route.StripAfterStarFree` | src/app/api/gemini/route.js:53-54 | a pass copies an asterisk-free prefix verbatim and continues after it |
| `Route.StripWithoutDelimiter` | src/app/api/gemini/route.js:53-54 | a text in which the delimiter never occurs is left unchanged by that pass |
| `Route.StripWrapped` | src/app/api/gemini/route.js:53-54 | a pass turns delimiter + x + delimiter into x, for x free of asterisks and line terminators, and continues after it |
| `Route.CleanBold` | src/app/api/gemini/route.js:52-55 | cleaning `**x**` gives `x` trimmed, for x free of asterisks and line terminators |
| `Route.CleanItalic` | src/app/api/gemini/route.js:52-55 | cleaning `*x*` gives `x` trimmed, for x free of asterisks and line terminators |
| `Route.CleanStarFree` | src/app/api/gemini/route.js:52-55 | a text without asterisks comes back only trimmed |
| `Route.CleanLeadingBold` | src/app/api/gemini/route.js:52-55 | a reply that opens with a bold span and has no other asterisk cleans to the span's content and the rest, trimmed |
| `Route.GeminiResponse` | src/app/api/gemini/route.js:49-58 | the reply text is never empty; it is the cleaned text when that is not empty, and the apology when the upstream text is missing or cleans to ""; unless it is the apology it has no white space at either end |
| `Route.Handle` | src/app/api/gemini/route.js:39-68 | a throw gives 500 with the processing error; a non-ok upstream status is passed on with the fetch error; an ok one gives 200 with the cleaned text, the raw mode and the original prompt; error messages are never empty and neither is a generated text |
| `Route.UnknownModeEchoedVerbatim` | src/app/api/gemini/route.js:57-61 | a success body reports the mode as received, even an unknown one that was sent the normal template, and the prompt as received |
| `Route.LeadingBoldReply` | src/app/api/gemini/route.js:48-61 | a 200 reply with a leading bold span and no other asterisks yields status 200, its content and the rest trimmed, the mode and the prompt |
| `Page.FindMode` | src/app/page.js:72 | `find` returns an entry exactly when some entry has the id; it returns the first such entry |
| `Page.ModeIdsAreTemplateKeys` | src/app/page.js:12-43 | the ids of the page's mode list are exactly the keys of the route's template table |
| `Page.ModeIdSelectsItsTemplate` | src/app/page.js:53-56 | a request with a mode id from the list uses that id's template, with the prompt interpolated |
| `Page.ResponseAfter` | src/app/page.js:58-66 | a thrown fetch or a body with an error shows the fixed failure text; a success body shows its `geminiResponse` exactly |
| `Page.RouteReplyIsShown` | src/app/page.js:60-63 | whatever the route replies, the page then shows a non-empty text |
| `Page.IsBlank` | src/app/page.js:46 | no contract of its own: `!s.trim()`, also the test of page.js:199; specified through `JsText.Trim` (blank exactly when every character is white space) |
| `Page.NoAsAService.constructor` | src/app/page.js:7-10 | the initial state is an empty prompt and response, mode "normal", not loading; the mode invariant holds |
| `Page.NoAsAService.EditPrompt` | src/app/page.js:112 | typing replaces the prompt and keeps the mode invariant |
| `Page.NoAsAService.SelectMode` | src/app/page.js:131 | a mode button sets the selected mode to that entry's id, so the selected mode stays one of the ids |
| `Page.NoAsAService.SelectedModeData` | src/app/page.js:72 | under the invariant, the lookup of the selected mode always finds an entry, with that id |
| `Page.NoAsAService.RequestBody` | src/app/page.js:53-56 | the body posted carries the prompt and the selected mode, which always selects that mode's template |
| `Page.NoAsAService.GenerateDisabled` | src/app/page.js:161 | no contract of its own: the button's `disabled` test, a blank prompt or loading; its effect is stated by `ClickGenerate` |
| `Page.NoAsAService.HandleGenerate` | src/app/page.js:45-70 | a blank prompt changes nothing; otherwise the response becomes the text for the outcome and loading is off at the end, on every path; the mode invariant holds |
| `Page.NoAsAService.ClickGenerate` | src/app/page.js:159-161 | a click while the button is disabled (blank prompt or loading) changes nothing; otherwise it is `handleGenerate` |
| `Page.NoAsAService.Blocks` | src/app/page.js:185-222 | the panel shows the classification of each non-blank line of `response.split('\n')`, in order; an empty response shows no blocks; never more blocks than lines |
| `Page.MatchNumbered` | src/app/page.js:202 | a line matches exactly when it starts with one or more ASCII digits and a full stop, without trimming |
| `Page.NumberedMarker` | src/app/page.js:202 | the first group is the leading digits, the full stop and white space only, and the character after it (if any) is not white space, as `\s*` is greedy; the second group ends at the line's end or at a line terminator, as `.*` is greedy; the two groups read together are a prefix of the line |
| `Page.NumberedRestOnOneLine` | src/app/page.js:202 | the second group holds no line terminator |
| `Page.NumberedRestStart` | src/app/page.js:202 | the second group does not start with white space, since `\s*` takes it all |
| `Page.NumberedRebuild` | src/app/page.js:202 | for a line without line terminators, the marker followed by the rest is the whole line |
| `Page.RemoveFirst` | src/app/page.js:207 | no contract of its own: `String.prototype.replace` with a one-character string pattern and an empty replacement; specified by `RemoveFirstAfter` and `MarkerWithoutDot` |
| `Page.RemoveFirstAfter` | src/app/page.js:207 | `replace` with a string pattern deletes only the first occurrence |
| `Page.MarkerWithoutDot` | src/app/page.js:207 | removing the first `.` from a marker deletes the full stop after the digits and nothing else |
| `Page.NumberedBadge` | src/app/page.js:202-211 | a numbered line becomes an item whose badge is the marker without its full stop and whose text is the second group |
| `Page.UnnumberedLineIsParagraph` | src/app/page.js:216-221 | a line that is empty or does not start with a digit (a leading space included) is a paragraph of the line verbatim |
| `Page.Classify` | src/app/page.js:202-221 | no contract of its own: a numbered item of the two groups, or a paragraph of the line; specified by `NumberedBadge` and `UnnumberedLineIsParagraph` |
| `Page.RenderLine` | src/app/page.js:199-221 | no contract of its own: `null` for a blank line, otherwise the line's block; specified by `RenderLinesFollowNonBlank` |
| `Page.RenderEach` | src/app/page.js:198-221 | no contract of its own: the `map` over the lines; specified by `RenderLinesFollowNonBlank` |
| `Page.Present` | src/app/page.js:222 | no contract of its own: `filter(Boolean)`, dropping the `null`s in order; specified by `RenderLinesFollowNonBlank` |
| `Page.Render` | src/app/page.js:198-222 | no contract of its own: split, map, filter; specified by `RenderFollowsNonBlankLines` |
| `Page.RenderLinesFollowNonBlank` | src/app/page.js:198-222 | mapping and then filtering the lines gives the classification of the non-blank lines, in order |
| `Page.RenderFollowsNonBlankLines` | src/app/page.js:198-222 | the rendering has exactly one block per non-blank line of `response.split('\n')`, in order, each the classification of its line |

## Left out

- The `fetch` to the model's endpoint, the URL with the API key, `process.env` and the model name: the call is the abstract `upstream` parameter.
- JSON parsing of the request body, the upstream reply and the route's reply, and `NextResponse`. Replies are plain records of a status and a body.
  - A request body that is not JSON throws before the `try` block; that path is not modelled.
  - Non-string JSON values for `prompt` or `mode` are not modelled: each is a string or absent.
- `console.error` logging: a diagnostic side effect only.
- async scheduling: `handleGenerate` is one sequential transition given the outcome of its fetch. Interleavings of two clicks are not modelled.
  - `isLoading` is set and cleared within that one transition. The state in between is visible only to the button's `disabled` test, which `ClickGenerate` models.
- The clipboard button, the JSX layout, class strings, icons and the display fields of the mode list other than the id, label and description.
- Template lookup through JavaScript object prototype keys (a mode of "constructor" or "toString" hits an inherited member): the table is modelled as exactly three keys.
- `Page.NoAsAService.HandleGenerate`: the client tests `data.error` for truthiness. The model tests whether the body is an error body. The two agree because both error messages of the route are non-empty, which `Route.Handle` states.
- `Route.CleanBold`, `Route.CleanItalic`: stated only for `x` without asterisks. The lazy match stops at the first closing delimiter. For example, `**x**` with `x` = `a**b` cleans to `ab`, not to `a**b`.
