# Markdown + LaTeX tiler, helpers and conversation table — a Dafny model

This project models three parts of a chat bot in Dafny and proves properties of them.

**The tiler.** It turns an assistant's Markdown + LaTeX answer into square 800×800 image tiles. Its pipeline has five steps:

- **A. Normalise delimiters** (`Delimiters`). `\(X\)` becomes `$X$`. `\[X\]` becomes `$$X'$$` or `$X'$`, and its body's lines are joined by spaces. When no full LaTeX toolchain is present, `\boxed{X}` is reduced to `X` and three macros are replaced.
- **B. Split into blocks** (`Blocks`). This is the `_BLOCK_RE` tokenizer followed by the `_split_blocks` filter.
- **C. Pack blocks into chunks** (`Packer`). Packing is greedy and limited to 550 characters.
- **D. Soft-wrap lines** (`Wrapper`). Inline `$…$` spans are kept unbroken.
- **E. Draw one tile per chunk** (`Tiler`). What is modelled is the centring arithmetic on the 800×800 canvas.

Python's string primitives live in `PyText`. These are `str.isspace`, `strip` and `lstrip`/`rstrip`, `rstrip("\n")`, `splitlines`, `replace`, `find`, `" ".join` and ASCII `lower`.

**The helpers** (`Helpers`):

- file extensions, by pure-POSIX path rules;
- the allowed-file check and file-type classification;
- the file-size decision;
- MarkdownV2 escaping;
- truncation.

**The conversation table** (`Conversations`) is the `ConversationManager` class. It holds a dictionary from user id to `UserConversation` and changes it in place.

Parameters stand in for the environment:

- `fullLatex` is the toolchain probe.
- `fill` is `textwrap.fill(·, 90)`.
- `measure` gives the pixel size of the image that matplotlib renders from a text.
- `cfg: Settings` is the process-wide settings object.

Each stateful operation is a method proved against a reference function:

- `PatchMacros` against `MacrosPatched`;
- `PackBlocks` against `Pack`;
- `WrapLine` against `WrapSpec`;
- `EscapeMarkdown` against `Escaped` and the one-pass `EscapeIn`.

The properties are then proved about those functions.

## Model

| member | source | states |
|---|---|---|
| Delimiters.Normalise | bot/utils/latex_render.py:93-113 | Definition of `_normalise_delimiters`: the inline pass, then the display pass with `$$` or `$`, then, only without full LaTeX, the `\boxed` pass and `_patch_macros`. Its behaviour is stated by the `Normalise…`, `BoxedOnlyWithoutLatex` and `NormaliseMacro` lemmas. |
| Delimiters.MacrosPatched | bot/utils/latex_render.py:56-68 | Definition of `_patch_macros`: `str.replace` with each table entry in table order, that is `\implies` by `\Rightarrow`, then `\qquad` by `\;`, then `\enspace` by `\,`. Stated by `MacroPatchedOne` and `MacrosPatchedNoMacro`. |
| Delimiters.PatchMacros | bot/utils/latex_render.py:56-68 | The loop applying `str.replace` for each table entry, in table order, computes `MacrosPatched(tex)`. |
| Delimiters.MacroPatchedOne | bot/utils/latex_render.py:56-68 | In otherwise backslash-free text, each of the three table macros is rewritten to its replacement: `a\implies b` becomes `a\Rightarrow b`, and so on. No replacement creates a macro that a later entry would rewrite. |
| Delimiters.NormaliseMacro | bot/utils/latex_render.py:93-113 | In otherwise backslash-free text, a table macro is kept with full LaTeX and replaced by its safe macro without it. |
| Delimiters.MacrosPatchedNoMacro | bot/utils/latex_render.py:64-68 | Text holding none of `\implies`, `\qquad`, `\enspace` is returned unchanged. |
| Delimiters.MacroReplacedFirst | bot/utils/latex_render.py:66-67 | The first occurrence of a table macro is replaced by its safe equivalent, the text before it is kept, and the replacing continues after it. This is `PyText.ReplaceAllFirst` for one table entry. |
| Delimiters.ApplyTableNoOcc | bot/utils/latex_render.py:66-67 | Replacing macros a text does not contain changes nothing. |
| Delimiters.SubPairs | bot/utils/latex_render.py:89-107 | Definition of `re.sub` with the lazy pair patterns `\(…\)` and `\[…\]`. Stated by `SubPairsNoOpen`, `SubPairsPrefix`, `SubPairsAtOpen` and `SubPairsFirst`. |
| Delimiters.SubPairsNoOpen | bot/utils/latex_render.py:89-90 | A text without an opening delimiter is unchanged by the pair substitution. This is the special case of `SubPairsNoPair` where no opener occurs at all. |
| Delimiters.SubPairsNoPair | bot/utils/latex_render.py:89-107 | A text in which no opener has a closer after it is unchanged by the pair substitution, whatever openers it holds. |
| Delimiters.SubPairsAtOpen | bot/utils/latex_render.py:89-90 | `open X close b` becomes the rewrapped `X` followed by the substitution of `b`, for any X without a closer. |
| Delimiters.SubPairsPrefix | bot/utils/latex_render.py:89-90 | A prefix with no opener starting in it is copied through verbatim. |
| Delimiters.SubPairsFirst | bot/utils/latex_render.py:89-90 | The leftmost pair is rewritten with its body taken up to the first closer (the shortest match), and the text before it is kept. |
| Delimiters.InlineFirst | bot/utils/latex_render.py:89-100 | `a \(X\) b` becomes `a $X$` followed by the rewritten `b`, with X unchanged even if it spans lines. |
| Delimiters.DisplayFirst | bot/utils/latex_render.py:90-107 | `a \[X\] b` becomes `a $$X'$$` under full LaTeX and `a $X'$` otherwise, where X' is X's lines joined with single spaces. |
| Delimiters.CollapseLinesOneLine | bot/utils/latex_render.py:104 | The collapsed display body contains no line boundary. |
| Delimiters.CollapseSingleLine | bot/utils/latex_render.py:104 | A body that is already one line is left as it is. |
| Delimiters.JoinNoBoundary | bot/utils/latex_render.py:104 | Joining boundary-free lines with spaces yields a boundary-free text. |
| Delimiters.FirstCloseAfter | bot/utils/latex_render.py:89-90 | The closer search after the opener finds the closer that ends X. |
| Delimiters.BoxedAt | bot/utils/latex_render.py:91 | A `\boxed\s*{…}` match lies inside the text, and the body ends at the closing `}`. |
| Delimiters.FindBrace | bot/utils/latex_render.py:91 | A position it finds lies at or after the start, inside the text, and holds `{` or `}`. |
| Delimiters.FindBraceSkips | bot/utils/latex_render.py:91 | No `{` or `}` lies between the start and the position found, or the end of the text when none is found. So the body `[^{}]*?` cannot run past a brace. |
| Delimiters.BoxedAtMacro | bot/utils/latex_render.py:91 | `\boxed`, whitespace, then `{X}` with X brace-free matches with its body exactly X. |
| Delimiters.SubBoxed | bot/utils/latex_render.py:91-110 | Definition of `re.sub` with `\boxed\s*{([^{}]*?)}`. Stated by `SubBoxedNoMacro`, `SubBoxedPrefix`, `SubBoxedAtMacro` and `SubBoxedFirst`. |
| Delimiters.SubBoxedAtMacro | bot/utils/latex_render.py:91-110 | `\boxed ws{X}b` becomes `X` followed by the substitution of `b`. |
| Delimiters.SubBoxedPrefix | bot/utils/latex_render.py:110 | A prefix in which no `\boxed` starts is copied through. |
| Delimiters.SubBoxedFirst | bot/utils/latex_render.py:91-110 | The leftmost `\boxed{X}` (X brace-free) is reduced to X, and the text before it is kept. |
| Delimiters.SubBoxedNoMacro | bot/utils/latex_render.py:110 | A text without `\boxed` is unchanged by the boxed step. This is the special case of `SubBoxedNoMatch` where `\boxed` does not occur at all. |
| Delimiters.SubBoxedNoMatch | bot/utils/latex_render.py:91-110 | A text in which the `\boxed` pattern matches at no position is unchanged by the `\boxed` pass. |
| Delimiters.BoxedDropped | bot/utils/latex_render.py:110 | In backslash-free text, `a\boxed{X}b` with a brace-free X becomes `aXb`. |
| Delimiters.NormaliseCanonical | bot/utils/latex_render.py:93-113 | A text with no `\(` that has a later `\)`, no `\[` that has a later `\]`, and, without full LaTeX, no `\boxed\s*{…}` match and no table macro, is returned unchanged. This includes unterminated openers and malformed `\boxed`. |
| Delimiters.NormaliseNoBackslash | bot/utils/latex_render.py:93-113 | A text without a backslash is returned unchanged in both modes. |
| Delimiters.NormaliseNoBackslashSteps | bot/utils/latex_render.py:100-111 | Each step of the normaliser leaves a backslash-free text as it is: the inline pass, the display pass, the `\boxed` pass and `_patch_macros`. |
| Delimiters.BoxedOnlyWithoutLatex | bot/utils/latex_render.py:109-111 | For `a\boxed{X}b` where a, X and b have no backslash and X has no brace: the text is unchanged with full LaTeX and becomes `aXb` without it. |
| Delimiters.NormaliseInline | bot/utils/latex_render.py:93-113 | In a backslash-free context, `a \(X\) b` normalises to `a $X$ b` in both modes. |
| Delimiters.UnterminatedInlineKept | bot/utils/latex_render.py:89-113 | An unterminated `\(` in otherwise backslash-free text comes back unchanged, in both modes. |
| Delimiters.NestedBoxedNoMatch | bot/utils/latex_render.py:91 | `\boxed{X{…` with a brace-free X is no match: the group may not contain a brace. |
| Delimiters.NestedBoxedKept | bot/utils/latex_render.py:91-113 | `\boxed{X{…`, such as `\boxed{a{b}}`, in otherwise backslash-free text comes back unchanged, in both modes. |
| Delimiters.PairClose | bot/utils/latex_render.py:89-90 | When present, the closer of a pair opened at the start lies after the opener and inside the text. |
| Blocks.Tokenize | bot/utils/latex_render.py:116-128 | Definition of `_BLOCK_RE.finditer`: repeated `NextToken` from a position to the end of the text. Stated by `TokenizePartition`. |
| Blocks.Keep | bot/utils/latex_render.py:127-129 | Definition of the comprehension's filter and map. Stated by `KeepWellFormed` and `KeepNonSpace`. |
| Blocks.SplitBlocks | bot/utils/latex_render.py:126-129 | Definition of `_split_blocks`: `Keep` of the tokens. Stated by `SplitBlocksWellFormed`, `SplitBlocksKeepsText` and the token lemmas. |
| Blocks.DelimitedEnd | bot/utils/latex_render.py:117-119 | A delimited alternative (fence, `$$`, `$`) ends after both delimiters, inside the text. |
| Blocks.HeadingEnd | bot/utils/latex_render.py:120 | A heading match is non-empty and inside the text. |
| Blocks.LastNewline | bot/utils/latex_render.py:121 | Finds the last line feed in a range; no later one is skipped, and None means there is none. |
| Blocks.RuleEnd | bot/utils/latex_render.py:121 | A rule match covers at least `---` and stays inside the text. |
| Blocks.LineEnd | bot/utils/latex_render.py:122 | The line alternative always matches and consumes at least one character. |
| Blocks.NextToken | bot/utils/latex_render.py:116-124 | The tokenizer always advances, so `finditer` terminates. |
| Blocks.TokenizePartition | bot/utils/latex_render.py:116-124 | The matches cover the text exactly, in order, with no gap and no empty match, so no input character is skipped. |
| Blocks.KeepOneWellFormed | bot/utils/latex_render.py:127-129 | A kept token is not blank and does not end in `\n`. |
| Blocks.KeepWellFormed | bot/utils/latex_render.py:127-129 | The same holds for every kept token. |
| Blocks.SplitBlocksWellFormed | bot/utils/latex_render.py:126-129 | Every block is non-empty, not all whitespace, and has no trailing `\n`. |
| Blocks.KeepOneNonSpace | bot/utils/latex_render.py:127-129 | Filtering and `rstrip("\n")` lose no non-whitespace character of a token. |
| Blocks.KeepNonSpace | bot/utils/latex_render.py:127-129 | The same holds across the token list. |
| Blocks.SplitBlocksKeepsText | bot/utils/latex_render.py:116-129 | The blocks joined together have exactly the input's non-whitespace characters, in input order. |
| Blocks.DelimitedAt | bot/utils/latex_render.py:117-119 | A delimited span ends at the first closing delimiter (a lazy match). |
| Blocks.FenceToken | bot/utils/latex_render.py:117 | A fence runs from one ```` ``` ```` to the next, whatever lies between, including `$` and `#`. |
| Blocks.DisplayToken | bot/utils/latex_render.py:118 | `$$` runs to the next `$$` and is taken before the single-`$` alternative. |
| Blocks.LoneDollarIsLine | bot/utils/latex_render.py:119-122 | A `$` with no later `$` falls through to the line alternative. |
| Blocks.PlainTextIsLine | bot/utils/latex_render.py:120-122 | Ordinary text falls through to the line alternative. |
| Blocks.HeadingToken | bot/utils/latex_render.py:120 | At the start of the text or after a `\n`, 1 to 6 `#` and a space form a heading up to the end of the line, without the `\n`, or up to the end of the text. |
| Blocks.HeadingEndAt | bot/utils/latex_render.py:120 | At a line start, n `#` (1 ≤ n ≤ 6), a space and a line-feed-free rest match as a heading ending at the next `\n` or at the end of the text. |
| Blocks.TooManyHashesIsLine | bot/utils/latex_render.py:120-122 | Seven or more `#` are no heading, and the line alternative takes them. |
| Blocks.RuleToken | bot/utils/latex_render.py:121 | `---` followed by a line feed is a rule; the `\n` is included only at the end of the text. |
| Blocks.PlainLineIsOneBlock | bot/utils/latex_render.py:116-129 | A line starting with ordinary text is exactly one block, even when it holds `$x$`. |
| Blocks.FenceFirstBlock | bot/utils/latex_render.py:117-129 | A leading fenced span is the first block, verbatim. |
| Packer.PackFrom | bot/utils/latex_render.py:133-144 | Definition of what the loop produces from the remaining blocks and the pending `current`. Characterised by `PackIsTiles` and `PackPartition`. |
| Packer.Pack | bot/utils/latex_render.py:132-144 | Definition of `_pack_blocks` as a function: `PackFrom` with an empty `current`. |
| Packer.PackBlocks | bot/utils/latex_render.py:132-144 | The loop appending to `tiles` and reassigning `current` computes `Pack(blocks)`. |
| Packer.PackPartition | bot/utils/latex_render.py:132-144 | The blocks split into consecutive runs that flatten back to the blocks, with none lost or repeated. Each chunk is its run joined by `\n\n` and stripped. Each run fits or is a single block. Runs are maximal, and no blocks give no chunks. |
| Packer.TileWithinLimit | bot/utils/latex_render.py:135-140 | A chunk made from more than one block is at most 550 characters. |
| Packer.TwoBlocksMerge | bot/utils/latex_render.py:135-141 | Two blocks that fit together share one chunk, whatever their content: math and prose are merged. |
| Packer.TwoBlocksSplit | bot/utils/latex_render.py:135-143 | Two blocks that do not fit together get one chunk each, even when the first is over the limit on its own. |
| Packer.OversizedThenTwo | bot/utils/latex_render.py:135-143 | An oversized block is emitted whole in its own chunk, and the blocks after it are packed afresh. |
| Packer.RunsFlatten | bot/utils/latex_render.py:134-143 | The runs flatten back to the pending run followed by the remaining blocks. |
| Packer.RunsShape | bot/utils/latex_render.py:135-141 | Every run is non-empty and fits, or is one block. |
| Packer.RunsGreedy | bot/utils/latex_render.py:136 | A run ends only where adding the next block would exceed the limit. |
| Packer.PackIsTiles | bot/utils/latex_render.py:132-144 | The loop's output is the stripped join of each run. |
| Wrapper.SplitMath | bot/utils/latex_render.py:147-153 | Definition of `_INLINE_MATH_RE.split`. Stated by `SplitMathPartition`, `SplitMathKinds`, `SplitMathNoSpan`, `SpanPrefixPlain` and `SpanIsMath`. |
| Wrapper.WrapSpec | bot/utils/latex_render.py:149-162 | Definition of `_wrap_line`: pass-through lines are kept, and every other line has its split parts turned into pieces. Stated by `FenceAndHeadingKept`, `MathSpanKept` and `MathFreeLine`. |
| Wrapper.WrapLine | bot/utils/latex_render.py:149-162 | The loop that accumulates `wrapped` and skips empty parts computes `WrapSpec(line, fill)`. |
| Wrapper.FenceAndHeadingKept | bot/utils/latex_render.py:150-151 | A line whose left-stripped form starts with ```` ``` ```` or `#` is returned unchanged. |
| Wrapper.SplitMathPartition | bot/utils/latex_render.py:147-153 | The split parts concatenate back to the line, so nothing is lost or moved. |
| Wrapper.SplitMathKinds | bot/utils/latex_render.py:147-153 | The split alternates: plain text without `$`, then a `$…$` span without an inner `$`. The last part is plain, with at most one `$`. |
| Wrapper.SplitMathNoSpan | bot/utils/latex_render.py:147-153 | A line without a span is a single part, the line itself, and holds at most one `$`. |
| Wrapper.SpanPrefixPlain | bot/utils/latex_render.py:147 | The text before the leftmost span has no `$`. |
| Wrapper.SpanIsMath | bot/utils/latex_render.py:147-157 | The leftmost span matches the inline-math pattern in full. |
| Wrapper.MathSpanKept | bot/utils/latex_render.py:154-161 | Every `$…$` part appears verbatim and unbroken in the output, between the wrapped text before it and after it. |
| Wrapper.MathFreeLine | bot/utils/latex_render.py:153-161 | A non-empty line without `$` whose left-stripped form starts with neither a code fence (three backticks) nor `#` is `textwrap.fill` of the line. |
| Tiler.WrapChunk | bot/utils/latex_render.py:166 | Definition of the text drawn: each line of the chunk wrapped by `WrapSpec`, joined by `\n`. |
| Tiler.Chunks | bot/utils/latex_render.py:83-85 | Definition of the pipeline up to the chunks: normalise, split, pack. |
| Tiler.Render | bot/utils/latex_render.py:81-86 | Definition of `render`: one `DrawTile` per chunk. Stated by `RenderShape`. |
| Tiler.Offset | bot/utils/latex_render.py:180-182 | The offset `max((800-size)//2, 0)` keeps an image of size at most 800 inside the canvas, centred: the right margin equals the left margin or exceeds it by one. An oversized image is pasted at 0. |
| Tiler.DrawTile | bot/utils/latex_render.py:165-183 | The canvas is 800×800. The text is the chunk's lines wrapped and joined by `\n`. Both offsets keep an image that fits inside the canvas. |
| Tiler.RenderShape | bot/utils/latex_render.py:81-86 | `render` yields exactly one tile per chunk, in chunk order. Each tile is 800×800 and carries its chunk's wrapped text. |
| Tiler.RenderEmpty | bot/utils/latex_render.py:81-86 | An empty answer yields no tiles. |
| Tiler.PlainLineOneChunk | bot/utils/latex_render.py:84-85 | A single ordinary line is one block and one chunk at any length. |
| Tiler.PlainLineOneTile | bot/utils/latex_render.py:81-86 | A one-line backslash-free answer starting with ordinary text is drawn as one tile. |
| Tiler.InlineSentenceOneTile | bot/utils/latex_render.py:81-100 | `a \(X\) b` on one line becomes one chunk `a $X$ b` and one tile. |
| Helpers.GetFileExtension | bot/utils/helpers.py:12-14 | Definition: the lower-cased suffix of the last path component without its dot. Stated by `ExtensionOfName`, `NoExtensionWithoutInnerDot`, `ExtensionIgnoresDirectory` and `ExtensionLowerCase`. |
| Helpers.IsAllowedFile | bot/utils/helpers.py:17-20 | Definition: the extension is in the allowed list. Stated under the defaults by `DefaultAllowedIffTyped`. |
| Helpers.GetFileType | bot/utils/helpers.py:23-32 | IMAGE exactly when the extension is in the image list. DOCUMENT exactly when it is in the document list and not in the image list. Never AUDIO or VIDEO. |
| Helpers.ValidateFileSize | bot/utils/helpers.py:35-40 | Success exactly when the size is at most `max_file_size_mb*1024*1024`. On success there is no message; on failure the message is built from the size and the limit. |
| Helpers.MaxFileSizeBytes | config/settings.py:58-61 | The byte limit is the megabyte limit times 1024·1024. |
| Helpers.ExtensionOfName | bot/utils/helpers.py:12-14 | `stem.ext` (non-empty stem and extension, no dot in the extension) has the lower-cased `ext` as its extension, without the dot. |
| Helpers.NoExtensionWithoutInnerDot | bot/utils/helpers.py:12-14 | A name with no dot, or whose only dot is its first character (a hidden file) or its last (`report.`), has the extension `""`. |
| Helpers.ExtensionIgnoresDirectory | bot/utils/helpers.py:12-14 | Only the final path component counts; directory names, dotted or not, are ignored. |
| Helpers.ExtensionLowerCase | bot/utils/helpers.py:14 | An extension contains no upper-case ASCII letter. |
| Helpers.DefaultAllowedIffTyped | bot/utils/helpers.py:17-32 | Under the default settings, a file is allowed exactly when its type is not CUSTOM. |
| Helpers.DefaultListsDisjoint | config/settings.py:42-44 | The default image and document lists share no extension. |
| Helpers.EscapeMarkdown | bot/utils/helpers.py:58-63 | The loop of eighteen `replace` calls equals one pass that puts one backslash before each of ``_*[]()~`>#+-=|{}.!`` and leaves other characters alone. The output length is the input length plus the number of those characters. |
| Helpers.EscapeIn | bot/utils/helpers.py:58-63 | Definition of the one-pass escape that the replacement loop is proved equal to. Stated by `EscapeLength`, `EscapeInHead` and `UnescapeEscape`. |
| Helpers.EscapeMarkdownIsOnePass | bot/utils/helpers.py:60-62 | The sequential replacements equal the one-pass escape. |
| Helpers.EscapedByIsEscapeIn | bot/utils/helpers.py:61-62 | For distinct characters that do not include the backslash, the replacements done one after another equal a single simultaneous escape. |
| Helpers.ReplaceOneChar | bot/utils/helpers.py:62 | `replace(c, "\\" + c)` escapes exactly the occurrences of c. |
| Helpers.EscapeCompose | bot/utils/helpers.py:61-62 | Escaping c and then other characters equals escaping all of them at once. |
| Helpers.EscapeLength | bot/utils/helpers.py:58-63 | The escaped text is longer by the number of escaped characters. |
| Helpers.UnescapeEscape | bot/utils/helpers.py:58-63 | Escaping is lossless: dropping the inserted backslashes gives the text back. |
| Helpers.EscapeInHead | bot/utils/helpers.py:58-63 | An escaped text never starts with an unescaped special character. |
| Helpers.TruncateText | bot/utils/helpers.py:66-70 | `max_length` defaults to 4000. The text is unchanged when its length is at most `max_length`. Otherwise, for `max_length ≥ 3`, the result is the first `max_length-3` characters plus `...`, exactly `max_length` long. |
| Helpers.TruncateBound | bot/utils/helpers.py:66-70 | For `max_length ≥ 3` the result never exceeds `max_length`. |
| Helpers.TruncateIdempotent | bot/utils/helpers.py:66-70 | For `max_length ≥ 3`, truncating twice equals truncating once. |
| Helpers.TruncateSmallLimitExceeds | bot/utils/helpers.py:70 | Below 3 the slice bound is negative (counted from the end), and the result is longer than the limit. |
| Helpers.PyPrefix | bot/utils/helpers.py:70 | `s[:n]` is a prefix of s for every integer n. |
| PyText.StripEmptyIff | bot/utils/latex_render.py:129 | `strip()` is empty exactly when the text is all whitespace. |
| PyText.ReplaceAllFirst | bot/utils/latex_render.py:67 | `str.replace` replaces the first occurrence and continues after the replacement. |
| PyText.ReplaceAllNoOcc | bot/utils/latex_render.py:67 | `str.replace` of an absent pattern changes nothing. |
| PyText.Lower | bot/utils/helpers.py:14 | `lower()` keeps the length and maps each character by ASCII case folding. |
| PyText.RStripNewlines | bot/utils/latex_render.py:127 | `rstrip("\n")` removes exactly the trailing line feeds. |
| Conversations.Fresh | bot/models/schemas.py:51-58 | A new record carries the user id and name, `conversation_id = None` and `message_count = 0`. |
| Conversations.ConversationManager.constructor | bot/services/conversation_manager.py:16-17 | The table starts empty. |
| Conversations.ConversationManager.GetOrCreateConversation | bot/services/conversation_manager.py:19-31 | A present user leaves the table unchanged and gets back the stored entry. An absent user gets a fresh entry inserted last. Either way the user is present afterwards, and the message total is unchanged. |
| Conversations.ConversationManager.CreateNewConversation | bot/services/conversation_manager.py:33-43 | The user's entry is replaced by a fresh one, and other entries are untouched. An existing key keeps its position. The total loses the old entry's count. |
| Conversations.ConversationManager.UpdateConversationId | bot/services/conversation_manager.py:45-51 | Only that user's `conversation_id` changes; an absent user is a no-op. |
| Conversations.ConversationManager.GetConversation | bot/services/conversation_manager.py:53-55 | Returns the stored entry exactly when the user is present, and None otherwise. The table is unchanged. |
| Conversations.ConversationManager.ClearConversation | bot/services/conversation_manager.py:57-64 | Removes exactly that user from the table and from the key order; absence is a no-op. The total loses that entry's count. |
| Conversations.ConversationManager.IncrementMessageCount | bot/services/conversation_manager.py:66-69 | Raises that user's count by exactly 1 and the total by 1. Nothing else changes, and an absent user is a no-op. |
| Conversations.ConversationManager.GetAllConversations | bot/services/conversation_manager.py:76-78 | Returns the table's contents. |
| Conversations.ConversationManager.GetStats | bot/services/conversation_manager.py:80-89 | `total_conversations` is the table size and equals the number of active users. `total_messages` is the sum of all counts. `active_users` is the key list in insertion order, with each key exactly once. |
| Conversations.TotalInsertFresh | bot/services/conversation_manager.py:19-31 | Inserting a fresh entry leaves the message sum unchanged. |
| Conversations.TotalReplace | bot/services/conversation_manager.py:66-69 | Replacing one entry changes the sum by the difference of the two counts. |
| Conversations.TotalRemove | bot/services/conversation_manager.py:57-64 | Deleting an entry removes its count from the sum. |
| Conversations.RemoveDistinct | bot/services/conversation_manager.py:57-64 | Deleting a key keeps the key list free of duplicates. |
| Conversations.RemoveAbsent | bot/services/conversation_manager.py:59 | Deleting an absent key changes nothing. |
| Conversations.KeysCount | bot/services/conversation_manager.py:80-89 | A duplicate-free list of the table's keys is exactly as long as the table is large. |
| Conversations.Remove | bot/services/conversation_manager.py:64 | The key list after deletion holds every other key and not the deleted one. |

## Left out

- Rasterisation (`_draw_tile`'s figure, text layout, `savefig` with a tight bounding box, RGB conversion and PNG encoding) is foreign graphics code. Only the 800×800 canvas and the integer paste offsets are modelled, with the rendered image's size as the parameter `measure`.
- The LaTeX toolchain probe with `shutil.which`, and the matplotlib `rcParams` setup, are environment probing. The probe's result is the parameter `fullLatex`.
- `textwrap.fill` is the parameter `fill`. No property of it is assumed, so no bound on the width of wrapped lines is claimed.
- PyText.Lower: lower-casing is ASCII only. Python's full Unicode `lower()` and case-insensitive file systems are not modelled.
- Path handling is `PurePosixPath`: `/` is the only separator, and empty and `.` components are dropped. Windows paths are not modelled.
- Helpers.ValidateFileSize: the failure message's float division and `.1f` formatting are not modelled. A failure returns the size and the limit the message is built from.
- `format_file_size` and `get_mime_type` use float formatting and a `mimetypes` lookup. They are outside the modelled helpers.
- Conversations.UserConversation: `created_at` (`datetime.now`) is left out, and so is `_generate_conversation_id` (`uuid4`). Both are nondeterministic.
- Conversations.ConversationManager: records are values. `get_or_create_conversation` returns the stored object itself, so a caller's later mutation of it would be visible in the table. That aliasing is not modelled.
- Conversations.ConversationManager.GetAllConversations returns a `map`. The copy's key order is kept only in `order`.
- Logging (`structlog`) has no effect on state and is left out.
- Packing looks at length only. Nothing keeps math and prose blocks apart, and Packer.TwoBlocksMerge proves that a math block and a prose block that fit together share a chunk.
- An exception while drawing a chunk aborts the whole `render` call. Rendering is a total function here, so failure is not modelled.
