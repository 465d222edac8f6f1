# iKeRyo-blog publishing passes, modelled in Dafny

This project models the text passes that turn an Obsidian note into
WordPress HTML in the iKeRyo-blog scripts, and proves what those passes
promise. It covers:

- **`CodeHighlighter`** (`code_highlighter.dfy`): parsing the fence info string and its
  `style:ranges` tokens, the line ranges, style selection per line, the
  HTML escape and its decode, and the assembled code-block HTML.
- **`MarkdownParser`** (`markdown_parser.dfy`):
  - front matter, with YAML as a parameter;
  - the wikilink preprocessor and its slug;
  - fenced code handed to the styler;
  - strikethrough;
  - bare-URL autolinking with its placeholder table;
  - the table and URL-card rewrites;
  - both title heuristics;
  - the pass order of `to_html`, with the Markdown converter as a parameter.
- **`ObsidianProcessor`** (`obsidian_processor.dfy`):
  - the `![[file|caption|width]]` directive scanner;
  - image extraction;
  - candidate-order path resolution over a set of existing files;
  - alt text;
  - the wikilink/checkbox rewrite;
  - figure HTML;
  - image-reference substitution;
  - the order in which the article script applies these passes.
- **`ImageNames`** (`image_names.dfy`): `_normalize_filename` (the batch optimiser's, with
  the extension option, which with `keepExtension == false` is also
  `ImageOptimizer._normalize_filename`) and the status classification of
  `optimize_images`.
- **`QualityChecker`** (`quality_checker.dfy`): the metadata, format and link checks, and
  the reading time.

`Text` (`text.dfy`) holds the string vocabulary the passes share: ASCII
character classes, `strip`, `split`, `join`, `str.replace`, `int()` and the
scanner helpers `Break`/`Span`. `Wrappers` holds `Option`.

Every regular expression is written as an explicit scanner with Python's
leftmost, non-overlapping `re.sub`/`re.finditer`/`re.findall` behaviour for that one
pattern, its backtracking outcome worked out by hand. Strings are
`seq<char>` and restricted to ASCII. Loops of the source are methods
proved against the function that specifies them. Raised exceptions are
`None`.

## Model

| member | source | states |
|---|---|---|
| CodeHighlighter.StyleNamed | scripts/utils/code_highlighter.py:68-104 | a key of `LINE_STYLES` gives the style of that name, and an unknown key gives none |
| CodeHighlighter.PrismLanguage | scripts/utils/code_highlighter.py:16-65 | the Prism name is the `LANGUAGE_MAP` entry of the lower-cased language when there is one, else the language unchanged |
| CodeHighlighter.Range | scripts/utils/code_highlighter.py:190 | `range(start, end + 1)` holds exactly the numbers from start to end |
| CodeHighlighter.ParseLineRanges | scripts/utils/code_highlighter.py:182-194 | the token loop computes the specified line list, or fails where `int()` raises |
| CodeHighlighter.RangesOfMembers | scripts/utils/code_highlighter.py:187-193 | a line is in the parsed list exactly when some token's range covers it |
| CodeHighlighter.RangesOfFails | scripts/utils/code_highlighter.py:187-193 | the parse fails exactly when some token is neither an integer nor `N-M` |
| CodeHighlighter.DigitRangeToken | scripts/utils/code_highlighter.py:188-190 | a `D-E` token covers the lines `D..E` |
| CodeHighlighter.RangeTokenAt | scripts/utils/code_highlighter.py:188-190 | a token split at its first `-` into two integers covers that range |
| CodeHighlighter.DigitToken | scripts/utils/code_highlighter.py:191-192 | a one-digit token is that one line |
| CodeHighlighter.RangeLineRange | scripts/utils/code_highlighter.py:182-194 | `D-E,F,G-H` gives the first range, the line, then the second range, in order |
| CodeHighlighter.LineRangesExample | scripts/utils/code_highlighter.py:183-186 | `"1-3,5,7-9"` parses to `[1, 2, 3, 5, 7, 8, 9]` |
| CodeHighlighter.OneTokenRanges | scripts/utils/code_highlighter.py:187 | a list without commas is a single token |
| CodeHighlighter.InvertedRange | scripts/utils/code_highlighter.py:189-190 | an inverted `D-E` contributes no lines and does not fail |
| CodeHighlighter.WordTokenFails | scripts/utils/code_highlighter.py:192 | a token made of letters makes `int()` raise |
| CodeHighlighter.EmptyTokenFails | scripts/utils/code_highlighter.py:187-192 | an empty token, as in `1,,2`, makes `int()` raise |
| CodeHighlighter.EmptyRangesFail | scripts/utils/code_highlighter.py:187 | an empty range list raises, since it splits into one empty token |
| CodeHighlighter.LeadingDashFails | scripts/utils/code_highlighter.py:188-189 | `-1` splits off an empty start and raises |
| CodeHighlighter.NotDecimalFails | scripts/utils/code_highlighter.py:189-192 | unsigned text that is not a decimal number raises |
| CodeHighlighter.StyleIndex | scripts/utils/code_highlighter.py:178 | the position of a key in the insertion-ordered dictionary, or its absence |
| CodeHighlighter.Put | scripts/utils/code_highlighter.py:178 | dictionary assignment: an existing key keeps its position with the new value, a new key goes last, keys stay distinct |
| CodeHighlighter.PutOverwrite | scripts/utils/code_highlighter.py:177-178 | assigning a style twice keeps its first position and its last list |
| CodeHighlighter.OverwrittenLineUnstyled | scripts/utils/code_highlighter.py:177-178 | after `error:1 warning:2 error:3`, line 1 belongs to no style |
| CodeHighlighter.AddTokensDistinct | scripts/utils/code_highlighter.py:174-178 | the highlight dictionary never holds a style twice |
| CodeHighlighter.AddTokensStep | scripts/utils/code_highlighter.py:174-178 | a token raises, is ignored, or sets its style, and the rest of the tokens continue from there |
| CodeHighlighter.ParseStyleToken | scripts/utils/code_highlighter.py:175-178 | one loop round: a token with `:` and a known style sets that style's lines, any other token is ignored |
| CodeHighlighter.ParseStyleTokens | scripts/utils/code_highlighter.py:174-178 | the loop over the tokens after the language builds the specified dictionary |
| CodeHighlighter.ParseInfoString | scripts/utils/code_highlighter.py:160-180 | the method computes the language and the highlight dictionary of the info string |
| CodeHighlighter.InfoStringShape | scripts/utils/code_highlighter.py:165-172 | the first token is the language whatever it looks like; empty info gives `''` and no highlights |
| CodeHighlighter.InfoOneRangeToken | scripts/utils/code_highlighter.py:165-178 | `lang style:D-E` gives that language and one style with the lines `D..E` |
| CodeHighlighter.AddStyleToken | scripts/utils/code_highlighter.py:175-178 | a first token naming a known style with well-formed lines records them |
| CodeHighlighter.FirstListedStyleWins | scripts/utils/code_highlighter.py:200-203 | the first style in dictionary order whose list holds the line wins over later ones |
| CodeHighlighter.UnlistedLineUnstyled | scripts/utils/code_highlighter.py:204-205 | a line in no list gets no style |
| CodeHighlighter.SelectStyle | scripts/utils/code_highlighter.py:199-206 | the for/else search finds the first style listing the line, or finds that none does |
| CodeHighlighter.CreateLineHtml | scripts/utils/code_highlighter.py:196-224 | a line's span is the styled span of the selected style, or the plain span |
| CodeHighlighter.DecodeInvertsEscape | scripts/utils/code_highlighter.py:334-337 | for code without quote characters the three replacements invert `html.escape` |
| CodeHighlighter.DecodeLt | scripts/utils/code_highlighter.py:335 | replacing `&lt;` restores every `<` and leaves the other escapes |
| CodeHighlighter.DecodeGt | scripts/utils/code_highlighter.py:336 | replacing `&gt;` restores every `>` |
| CodeHighlighter.DecodeAmp | scripts/utils/code_highlighter.py:337 | replacing `&amp;` last gives the original code back |
| CodeHighlighter.HtmlEscape | scripts/utils/code_highlighter.py:123 | `html.escape` with `quote=True`, character by character; `DecodeInvertsEscape` states that the decode inverts it |
| CodeHighlighter.StripEmptyAllSpace | scripts/utils/code_highlighter.py:127 | `s.strip()` is empty exactly when `s` is all whitespace |
| CodeHighlighter.DropTrailingBlankLine | scripts/utils/code_highlighter.py:124-128 | splitting at newlines and dropping a blank last line loses only trailing whitespace with no newline after it |
| CodeHighlighter.CodeLinesDropAtMostOneBlankLine | scripts/utils/code_highlighter.py:121-128 | the rendered lines are the escaped code less at most one trailing whitespace-only line |
| CodeHighlighter.LabelShownIff | scripts/utils/code_highlighter.py:241-253 | the wrapper is followed by the language label exactly when the original language is non-empty and not `plaintext` |
| CodeHighlighter.RenderLines | scripts/utils/code_highlighter.py:145-148 | the loop builds one span per line, numbered from 1, in order |
| CodeHighlighter.LinesHtmlAt | scripts/utils/code_highlighter.py:145-148 | a list holding each line's span in order is the specified line HTML |
| CodeHighlighter.RenderBlock | scripts/utils/code_highlighter.py:130-158 | after the language default, the method builds the simple wrapper or the styled block |
| CodeHighlighter.ProcessCodeBlock | scripts/utils/code_highlighter.py:109-158 | `process_code_block` computes the specified block, or fails where the range parse raises |
| CodeHighlighter.CodeBlock | scripts/utils/code_highlighter.py:109-158 | the block `process_code_block` returns for an info string and code, or failure where `int()` raises; `ProcessCodeBlock` computes it and `LanguageLabelIff` states when it carries a label |
| CodeHighlighter.LanguageLabelIff | scripts/utils/code_highlighter.py:116-158 | a block shows a language label exactly when its language, `plaintext` when missing, is not `plaintext` |
| CodeHighlighter.SimpleBlockLabel | scripts/utils/code_highlighter.py:131-138 | the simple plaintext wrapper has no label |
| CodeHighlighter.StyledBlockLabel | scripts/utils/code_highlighter.py:142-158 | the styled block has a label exactly when the language is not `plaintext` |
| MarkdownParser.LastNewline | scripts/utils/markdown_parser.py:71 | the index of the last newline of a text, or its absence |
| MarkdownParser.DelimiterLenLongest | scripts/utils/markdown_parser.py:71 | `\n---\s*\n` takes the longest delimiter at a position |
| MarkdownParser.FindDelimiter | scripts/utils/markdown_parser.py:71 | `re.search` finds the first position where a closing delimiter starts, or none |
| MarkdownParser.ParseFrontmatter | scripts/utils/markdown_parser.py:64-85 | `parse_frontmatter` with YAML loading as a parameter; `FrontmatterFallback`, `FrontmatterSplit` and `FrontmatterBodySuffix` state its three outcomes |
| MarkdownParser.FrontmatterFallback | scripts/utils/markdown_parser.py:66-85 | no `---` start, no closing delimiter, or a YAML error: no metadata and the text returned whole |
| MarkdownParser.FrontmatterBodySuffix | scripts/utils/markdown_parser.py:75-81 | the body returned is a suffix of the content, at least eight characters shorter when split |
| MarkdownParser.FrontmatterSplit | scripts/utils/markdown_parser.py:69-81 | `---` + YAML + delimiter + body gives the loaded mapping and exactly that body |
| MarkdownParser.ClosingFound | scripts/utils/markdown_parser.py:71-76 | the first delimiter after YAML without one is the one written, matched whole |
| MarkdownParser.WikiLenSound | scripts/utils/markdown_parser.py:25 | a wikilink match starts with `[[`, ends with `]]`, and its page is the text after `[[` |
| MarkdownParser.PreprocessLines | scripts/utils/markdown_parser.py:19-30 | one output line per input line, each rewritten on its own |
| MarkdownParser.WikiLenAlias | scripts/utils/markdown_parser.py:25 | `[[page\|text]]` matches with both groups |
| MarkdownParser.WikiLenPlain | scripts/utils/markdown_parser.py:25 | `[[page]]` matches with no second group |
| MarkdownParser.WikiAliasRewrite | scripts/utils/markdown_parser.py:24-36 | `[[P\|T]]` becomes `[T](/articles/<slug of P>)` |
| MarkdownParser.WikiPlainRewrite | scripts/utils/markdown_parser.py:24-36 | `[[P]]` becomes `[P](/articles/<slug of P>)` |
| MarkdownParser.WikiLinks | scripts/utils/markdown_parser.py:19-30 | the wikilink substitution over one line, with or without the `!` lookbehind; `WikiAliasRewrite`, `WikiPlainRewrite`, `WikiLinksNoBracket` and `ImageDirectiveKept` state what it does |
| MarkdownParser.WikiLinksNoBracket | scripts/utils/markdown_parser.py:24-28 | text with no `[` is left alone |
| MarkdownParser.ImageDirectiveKept | scripts/utils/markdown_parser.py:25 | the lookbehind spares an image directive `![[page]]` |
| MarkdownParser.KeepSlugChars | scripts/utils/markdown_parser.py:34 | only word characters, whitespace and `-` remain |
| MarkdownParser.Collapse | scripts/utils/markdown_parser.py:35 | each run of whitespace, `_` and `-` becomes one `-`; other characters come from the input |
| MarkdownParser.Slug | scripts/utils/markdown_parser.py:32-36 | `_wiki_to_url`'s slug: kept characters, stripped, separators collapsed, lower-cased; `SlugShape` states its shape |
| MarkdownParser.SlugShape | scripts/utils/markdown_parser.py:32-36 | a slug is lower-case letters, digits and single `-`: no whitespace, no `_`, no `--` |
| MarkdownParser.FenceLen | scripts/utils/markdown_parser.py:200 | the lazy fence match opens and closes with three backticks |
| MarkdownParser.FenceBlockNoNewline | scripts/utils/markdown_parser.py:160-163 | a fence with no newline is left as it is |
| MarkdownParser.CodeBlocksNoNewline | scripts/utils/markdown_parser.py:199-201 | text without newlines comes back whole |
| MarkdownParser.FenceSplitParts | scripts/utils/markdown_parser.py:159-173 | the info string is the stripped first line, and the code loses one newline before the closing fence |
| MarkdownParser.CodeBlocks | scripts/utils/markdown_parser.py:147-201 | `_process_code_blocks_simple`: each fence handed to the styler, failing when the styler raises; `CodeBlocksFence`, `CodeBlocksNoBacktick` and `CodeBlocksNoNewline` state what it does |
| MarkdownParser.CodeBlocksFence | scripts/utils/markdown_parser.py:152-197 | a text that is one fence becomes the styler's block between blank lines |
| MarkdownParser.CodeBlocksNoBacktick | scripts/utils/markdown_parser.py:199-201 | text without backticks holds no fence and is unchanged |
| MarkdownParser.StrikePlainPrefix | scripts/utils/markdown_parser.py:205-208 | text before the first `~` is copied |
| MarkdownParser.StrikeWrap | scripts/utils/markdown_parser.py:205-208 | `~~t~~`, with no `~` or newline in `t`, becomes `<del>t</del>` |
| MarkdownParser.StrikeNoTilde | scripts/utils/markdown_parser.py:205-208 | text without `~` is unchanged |
| MarkdownParser.Strikethrough | scripts/utils/markdown_parser.py:203-213 | `~~([^~\n]+)~~` to `<del>…</del>`, leftmost first; `StrikeWrap`, `StrikePlainPrefix` and `StrikeNoTilde` state what it does |
| MarkdownParser.SchemeLength | scripts/utils/markdown_parser.py:130 | the scheme is `https://`, `http://` or absent |
| MarkdownParser.UrlsNoScheme | scripts/utils/markdown_parser.py:130-139 | text without `://` has no URL to link |
| MarkdownParser.UrlAtLineStart | scripts/utils/markdown_parser.py:130-139 | a URL at the start of a line becomes `[url](url)` |
| MarkdownParser.UrlAfterSpace | scripts/utils/markdown_parser.py:130-139 | a URL after whitespace becomes `[url](url)` and the whitespace is kept |
| MarkdownParser.UrlLenNotH | scripts/utils/markdown_parser.py:130 | no URL starts at a character other than `h` |
| MarkdownParser.Protect | scripts/utils/markdown_parser.py:121-127 | saving a block appends to the table and keeps the earlier entries |
| MarkdownParser.ProcessPlainUrls | scripts/utils/markdown_parser.py:114-145 | the method with its restore loop computes the specified pass |
| MarkdownParser.PlainUrls | scripts/utils/markdown_parser.py:114-145 | `_process_plain_urls` as written, restoring in saving order; `ProcessPlainUrls` computes it, and `InlineCodeKept`, `FencedCodeKept` and `NestedFenceLeaksPlaceholder` state what it keeps and what it loses |
| MarkdownParser.PlainUrlsUnchanged | scripts/utils/markdown_parser.py:114-145 | text with no backtick and no `://` comes back unchanged |
| MarkdownParser.PlaceholderChars | scripts/utils/markdown_parser.py:123 | a placeholder holds no backtick, colon or tilde |
| MarkdownParser.FencePassSkipsInlineCode | scripts/utils/markdown_parser.py:126 | the fence pass leaves an inline code span alone |
| MarkdownParser.InlineCodeKept | scripts/utils/markdown_parser.py:121-145 | a URL inside an inline code span is left alone |
| MarkdownParser.FencedCodeKept | scripts/utils/markdown_parser.py:121-145 | a URL inside a fence is left alone |
| MarkdownParser.FencePassNested | scripts/utils/markdown_parser.py:126 | the fence pass saves a fence that sits inside an inline code span |
| MarkdownParser.InlinePassNested | scripts/utils/markdown_parser.py:127 | the inline pass then saves the whole span, placeholder included |
| MarkdownParser.ForwardRestoreLeaves | scripts/utils/markdown_parser.py:142-143 | restoring in forward order leaves the inner placeholder in place |
| MarkdownParser.NestedFenceLeaksPlaceholder | scripts/utils/markdown_parser.py:121-145 | a fence inside an inline code span comes out as its placeholder |
| MarkdownParser.PlainUrlsAgree | scripts/utils/markdown_parser.py:142-143 | with at most one saved block, the two restore orders agree |
| MarkdownParser.ReverseRestoreNested | scripts/utils/markdown_parser.py:142-143 | restoring in reverse order gives both nested blocks back |
| MarkdownParser.NestedFenceRestored | scripts/utils/markdown_parser.py:121-145 | with the reverse restore, a fence inside an inline code span comes back verbatim |
| MarkdownParser.ProcessPlainUrlsCorrected | scripts/utils/markdown_parser.py:141-143 | the reverse-order restore loop computes the corrected pass |
| MarkdownParser.PlainUrlsCorrected | scripts/utils/markdown_parser.py:141-143 | the URL pass with the restore run from the last block to the first; `NestedFenceRestored` states that it keeps the nested fence |
| MarkdownParser.PlainUrlsCorrectedUnchanged | scripts/utils/markdown_parser.py:114-145 | the corrected pass also leaves text without backticks and `://` unchanged |
| MarkdownParser.StyledTagClean | scripts/utils/markdown_parser.py:221-243 | each styled tag opens with `<`, holds no other `<` and no bare table tag |
| MarkdownParser.PassClean | scripts/utils/markdown_parser.py:224-245 | one substitution with a clean tag removes its bare tag and introduces no other |
| MarkdownParser.RestyleClean | scripts/utils/markdown_parser.py:215-247 | after the four passes no bare `<table>`, `<th>`, `<td>` or `<thead>` is left |
| MarkdownParser.RestyleUnchanged | scripts/utils/markdown_parser.py:215-247 | a document without those bare tags is left as it is |
| MarkdownParser.EnhanceTablesClean | scripts/utils/markdown_parser.py:215-247 | `_enhance_tables` leaves no bare table tag |
| MarkdownParser.EnhanceTablesUnchanged | scripts/utils/markdown_parser.py:215-247 | `_enhance_tables` changes nothing in a document without bare table tags |
| MarkdownParser.EnhanceTablesIdempotent | scripts/utils/markdown_parser.py:215-247 | a second application changes nothing |
| MarkdownParser.EnhanceTablesPlain | scripts/utils/markdown_parser.py:215-247 | text without `<` is unchanged |
| MarkdownParser.EnhanceTables | scripts/utils/markdown_parser.py:215-247 | `_enhance_tables` with the page's tags; `EnhanceTablesClean`, `EnhanceTablesUnchanged` and `EnhanceTablesIdempotent` state what it does |
| MarkdownParser.RestyleTable | scripts/utils/markdown_parser.py:218-224 | a bare `<table>` becomes the styled tag and the rest is restyled on its own |
| MarkdownParser.RestyleHeaderCell | scripts/utils/markdown_parser.py:227-231 | a bare `<th>` becomes the styled tag and the rest is restyled on its own |
| MarkdownParser.RestyleCell | scripts/utils/markdown_parser.py:234-238 | a bare `<td>` becomes the styled tag and the rest is restyled on its own |
| MarkdownParser.RestyleHead | scripts/utils/markdown_parser.py:241-245 | a bare `<thead>` becomes the styled tag and the rest is restyled on its own |
| MarkdownParser.EnhanceTablesTable | scripts/utils/markdown_parser.py:218-224 | the page's `<table>` tag replaces a bare one |
| MarkdownParser.EnhanceTablesHeaderCell | scripts/utils/markdown_parser.py:227-231 | the page's `<th>` tag replaces a bare one |
| MarkdownParser.EnhanceTablesCell | scripts/utils/markdown_parser.py:234-238 | the page's `<td>` tag replaces a bare one |
| MarkdownParser.EnhanceTablesHead | scripts/utils/markdown_parser.py:241-245 | the page's `<thead>` tag replaces a bare one |
| MarkdownParser.CardLenSound | scripts/utils/markdown_parser.py:252 | a card match is exactly a link paragraph whose URL and text have the shapes of the two groups |
| MarkdownParser.CardLenWhole | scripts/utils/markdown_parser.py:252 | a link paragraph is matched with its own URL and text |
| MarkdownParser.UrlCardMade | scripts/utils/markdown_parser.py:254-270 | a paragraph whose link text is its URL becomes a card |
| MarkdownParser.UrlCardLinkKept | scripts/utils/markdown_parser.py:271-273 | a paragraph whose text differs from its URL is kept verbatim |
| MarkdownParser.UrlCardsPlainPrefix | scripts/utils/markdown_parser.py:275 | text before the first `<` is copied |
| MarkdownParser.UrlCardsNoOpen | scripts/utils/markdown_parser.py:275 | without `<p><a href="` nothing becomes a card |
| MarkdownParser.CardShape | scripts/utils/markdown_parser.py:261-269 | a card is an anchor to the URL and shows the link text |
| MarkdownParser.UrlCards | scripts/utils/markdown_parser.py:249-275 | `_process_url_cards` in a card style; `UrlCardMade`, `UrlCardLinkKept`, `UrlCardsPlainPrefix` and `UrlCardsNoOpen` state what it does |
| MarkdownParser.StripTagsPlainPrefix | scripts/utils/markdown_parser.py:282 | text without `<` is kept by the tag removal |
| MarkdownParser.StripTagsTag | scripts/utils/markdown_parser.py:282 | a tag `<t>` is removed and nothing after it |
| MarkdownParser.UntitledWithoutH1 | scripts/utils/markdown_parser.py:279-285 | without `<h1` the title is `Untitled` |
| MarkdownParser.FindH1Skip | scripts/utils/markdown_parser.py:279 | text before the first `<` is skipped by the search |
| MarkdownParser.H1AtWhole | scripts/utils/markdown_parser.py:279 | a one-line `<h1 ...>c</h1>` gives `c` |
| MarkdownParser.ExtractTitleH1 | scripts/utils/markdown_parser.py:277-283 | the title is the first one-line `<h1>`'s content, tags removed and trimmed |
| MarkdownParser.ExtractTitle | scripts/utils/markdown_parser.py:277-285 | `extract_title_from_html`; `ExtractTitleH1` and `UntitledWithoutH1` state its two outcomes |
| MarkdownParser.Capitalize | scripts/utils/markdown_parser.py:294 | `str.capitalize()` keeps the length |
| MarkdownParser.Spaced | scripts/utils/markdown_parser.py:292 | replacing `-` and `_` by spaces keeps the length |
| MarkdownParser.SuggestFromStem | scripts/utils/markdown_parser.py:290-296 | a usable stem wins over any heading |
| MarkdownParser.StemTitleShape | scripts/utils/markdown_parser.py:292-294 | a title from a stem holds no `-` or `_` |
| MarkdownParser.SuggestFromHeading | scripts/utils/markdown_parser.py:299-303 | with no usable stem, a leading `# ` heading gives the stripped title |
| MarkdownParser.NoHeadingAbsent | scripts/utils/markdown_parser.py:299 | text without `#` has no heading |
| MarkdownParser.SuggestUntitled | scripts/utils/markdown_parser.py:287-305 | with no usable stem and no heading the title is `Untitled` |
| MarkdownParser.SuggestTitle | scripts/utils/markdown_parser.py:287-305 | `suggest_title_from_content`; `SuggestFromStem`, `SuggestFromHeading` and `SuggestUntitled` state its three outcomes |
| MarkdownParser.RemoveMarkersPlain | scripts/utils/markdown_parser.py:109 | HTML without `%` is untouched by the marker removal |
| MarkdownParser.RemoveMarkersAround | scripts/utils/markdown_parser.py:109 | a marker is removed and nothing else is |
| MarkdownParser.Convert | scripts/utils/markdown_parser.py:87-112 | the conversion fails exactly when the fence pass raises |
| MarkdownParser.ConvertNoFence | scripts/utils/markdown_parser.py:87-112 | without a fence nothing raises, and the passes run in the order of `to_html` around the converter, with the URL pass as written |
| MarkdownParser.PreparedPlain | scripts/utils/markdown_parser.py:96-99 | Markdown with no code, tilde or URL reaches the converter as written |
| MarkdownParser.FinishedPlain | scripts/utils/markdown_parser.py:105-109 | HTML with no tag and no `%` leaves the post-passes as it came |
| MarkdownParser.ConvertPlain | scripts/utils/markdown_parser.py:87-112 | for plain text the whole conversion is the converter's |
| MarkdownParser.ToHtml | scripts/utils/markdown_parser.py:87-112 | `to_html` with the highlighter and the page's card style fails exactly when the highlighter raises on a fence |
| MarkdownParser.NestedLineStyled | scripts/utils/markdown_parser.py:96-99 | a one-line inline span holding a fence passes the fence and strikethrough passes unchanged |
| MarkdownParser.ConvertLeaksPlaceholder | scripts/utils/markdown_parser.py:87-112 | `to_html` as written hands the converter the fence's placeholder in place of a fence inside a one-line inline span |
| MarkdownParser.ConvertCorrected | scripts/utils/markdown_parser.py:87-112 | `to_html` with the reverse restore fails exactly when the fence pass raises |
| MarkdownParser.ConvertCorrectedKeepsFence | scripts/utils/markdown_parser.py:87-112 | with the reverse restore, such a span reaches the converter as written |
| ObsidianProcessor.DirectivesFrom | scripts/utils/obsidian_processor.py:28-30 | `re.finditer` yields matches in text order, not overlapping, each found where it stands |
| ObsidianProcessor.DirectiveFull | scripts/utils/obsidian_processor.py:28 | `![[f\|c\|w]]` gives file, caption and width |
| ObsidianProcessor.DirectiveNumberIsCaption | scripts/utils/obsidian_processor.py:28 | in `![[f\|300]]` the number is taken by the caption group and there is no width |
| ObsidianProcessor.DirectiveTwoTexts | scripts/utils/obsidian_processor.py:28 | `![[f\|a\|b]]` with a non-numeric `b` does not match |
| ObsidianProcessor.BaseName | scripts/utils/obsidian_processor.py:114 | `Path(p).name` holds no `/`, trailing `/` dropped first |
| ObsidianProcessor.BaseNameTrailingSlash | scripts/utils/obsidian_processor.py:114 | a trailing `/` does not change the name |
| ObsidianProcessor.BaseNameAfterLast | scripts/utils/obsidian_processor.py:114 | a path is named by the non-empty text after its last `/` |
| ObsidianProcessor.BaseNameOfJoin | scripts/utils/obsidian_processor.py:71-79 | the name of `dir / name` is `name` for a one-component name |
| ObsidianProcessor.LastDot | scripts/utils/obsidian_processor.py:114 | the index of the last `.`, or its absence |
| ObsidianProcessor.FirstAccepted | scripts/utils/obsidian_processor.py:83-101 | a search loop returns the first accepted path, and nothing exactly when no path is accepted |
| ObsidianProcessor.FindFirst | scripts/utils/obsidian_processor.py:83-101 | one search loop with its early return |
| ObsidianProcessor.Resolved | scripts/utils/obsidian_processor.py:66-104 | a resolved path is an existing file |
| ObsidianProcessor.ResolveImagePath | scripts/utils/obsidian_processor.py:66-104 | the three loops compute the specified resolution |
| ObsidianProcessor.ResolvedCandidate | scripts/utils/obsidian_processor.py:71-87 | an existing candidate wins over every later candidate and over both recursive searches |
| ObsidianProcessor.ResolvedNone | scripts/utils/obsidian_processor.py:83-104 | nothing is found exactly when no candidate and no listed path is a file, with `.git` paths excluded from the root search |
| ObsidianProcessor.ImageOf | scripts/utils/obsidian_processor.py:31-46 | a directive gives an entry exactly when its stripped file name resolves |
| ObsidianProcessor.EntryKeepsDashedDate | scripts/utils/obsidian_processor.py:41-46 | an extracted file named by a dashed date, with no caption, gets its spaced date as alt text, as `_generate_alt_text` computes it |
| ObsidianProcessor.Extracted | scripts/utils/obsidian_processor.py:30-51 | at most one entry per directive, each naming an existing file |
| ObsidianProcessor.ExtractImages | scripts/utils/obsidian_processor.py:23-51 | `extract_images` computes the specified entries |
| ObsidianProcessor.ExtractFrom | scripts/utils/obsidian_processor.py:30-51 | the loop appends the entry of each resolved directive in order |
| ObsidianProcessor.ExtractedAll | scripts/utils/obsidian_processor.py:30-51 | when every file resolves there is one entry per directive in order, with that directive's text |
| ObsidianProcessor.ExtractedNone | scripts/utils/obsidian_processor.py:48-49 | when no file resolves nothing is extracted and nothing fails |
| ObsidianProcessor.DirectivesInContent | scripts/utils/obsidian_processor.py:44 | every `match_text` occurs in the content and starts with `![[` |
| ObsidianProcessor.AltText | scripts/utils/obsidian_processor.py:106-118 | with no caption the alt text is never empty |
| ObsidianProcessor.AltTextCaption | scripts/utils/obsidian_processor.py:108-111 | a caption without tags is the alt text, stripped |
| ObsidianProcessor.RemoveDatesEight | scripts/utils/obsidian_processor.py:116 | eight digits in a row are removed |
| ObsidianProcessor.RemoveDatesDashed | scripts/utils/obsidian_processor.py:116 | a dashed date `dddd-dd-dd` is removed |
| ObsidianProcessor.RemoveDatesKeeps | scripts/utils/obsidian_processor.py:116 | text with no `-` and no eight digits in a row is kept whole |
| ObsidianProcessor.RemoveDates | scripts/utils/obsidian_processor.py:116 | `re.sub` of the two date patterns never lengthens the text; `RemoveDatesEight`, `RemoveDatesDashed` and `RemoveDatesKeeps` state what it removes |
| ObsidianProcessor.AltTextKeepsDashedDate | scripts/utils/obsidian_processor.py:114-118 | a file named by a dashed date keeps its spaced date as alt text |
| ObsidianProcessor.AltTextCorrected | scripts/utils/obsidian_processor.py:114-118 | with the dates removed before the dashes become spaces, the alt text without a caption is still never empty |
| ObsidianProcessor.AltTextDropsDashedDate | scripts/utils/obsidian_processor.py:114-118 | with the dates removed first, such a file gets the fallback `image` |
| ObsidianProcessor.CheckboxesPlain | scripts/utils/obsidian_processor.py:130-131 | text without `[` has no checkbox |
| ObsidianProcessor.CheckboxUnchecked | scripts/utils/obsidian_processor.py:130 | `- [ ]` becomes a ballot box |
| ObsidianProcessor.CheckboxChecked | scripts/utils/obsidian_processor.py:131 | `- [x]` becomes a checked box |
| ObsidianProcessor.Checkboxes | scripts/utils/obsidian_processor.py:130-131 | the two checkbox replacements; `CheckboxUnchecked`, `CheckboxChecked` and `CheckboxesPlain` state them |
| ObsidianProcessor.DirectiveRewritten | scripts/utils/obsidian_processor.py:120-134 | `![[p]]` becomes `![p](/articles/<slug of p>)`, since there is no `!` lookbehind |
| ObsidianProcessor.ProcessObsidianSyntax | scripts/utils/obsidian_processor.py:120-134 | `process_obsidian_syntax` as written, with no `!` lookbehind; `DirectiveRewritten` states what it does to an image directive |
| ObsidianProcessor.ProcessObsidianSyntaxCorrected | scripts/utils/obsidian_processor.py:124 | the rewrite with the `(?<!!)` lookbehind; `DirectiveReplaced` relies on it sparing `![[p]]` |
| ObsidianProcessor.CreateFigureHtml | scripts/utils/obsidian_processor.py:152-175 | the attribute list joined by spaces gives the specified figure |
| ObsidianProcessor.FigureIffCaption | scripts/utils/obsidian_processor.py:165-173 | the tag is wrapped in `<figure>` exactly when there is a caption |
| ObsidianProcessor.WidthShown | scripts/utils/obsidian_processor.py:160-161 | a set, non-zero width shows as a `width` attribute |
| ObsidianProcessor.WidthHidden | scripts/utils/obsidian_processor.py:160-161 | no width, or width zero, gives no `width=` |
| ObsidianProcessor.Figure | scripts/utils/obsidian_processor.py:152-175 | `_create_figure_html`; `CreateFigureHtml` computes it, `FigureIffCaption`, `WidthShown` and `WidthHidden` state its shape |
| ObsidianProcessor.UpdateImageReferences | scripts/utils/obsidian_processor.py:142-150 | the loop replaces every key of the mapping in order |
| ObsidianProcessor.ReferencesAbsent | scripts/utils/obsidian_processor.py:144-147 | keys that do not occur change nothing |
| ObsidianProcessor.ReferenceReplaced | scripts/utils/obsidian_processor.py:144-147 | a key that occurs once is replaced by its figure, in place |
| ObsidianProcessor.ApplyReferences | scripts/utils/obsidian_processor.py:142-150 | the mapping's replacements in order; `UpdateImageReferences` computes it, `ReferencesAbsent` and `ReferenceReplaced` state what it does |
| ObsidianProcessor.ArticleBody | scripts/process_article.py:46-87 | the article body in the script's order: syntax pass, then reference substitution; `DirectiveLostAsWritten` states that it loses an image directive |
| ObsidianProcessor.ArticleBodyCorrected | scripts/process_article.py:46-87 | the same order with the lookbehind in the syntax pass; `DirectiveReplaced` states that the directive becomes its figure |
| ObsidianProcessor.DirectiveLostAsWritten | scripts/process_article.py:46-87 | as the article script orders the passes, the directive is rewritten before its key is looked up, so no figure appears |
| ObsidianProcessor.DirectiveReplaced | scripts/process_article.py:46-87 | with the lookbehind the directive survives the syntax pass and becomes its figure |
| ImageNames.LastIndex | scripts/batch_image_optimizer.py:102 | the index of the last occurrence of a character, or its absence |
| ImageNames.SplitExt | scripts/batch_image_optimizer.py:102 | `os.path.splitext`: the two parts rejoin to the name, and the extension is empty or one `.` and no `/` |
| ImageNames.DateAt | scripts/batch_image_optimizer.py:110 | a date match spans at least eight characters and yields eight digits |
| ImageNames.NormalizeFilename | scripts/batch_image_optimizer.py:100-119 | the name ends in `.webp`, or in the lower-cased extension when it is kept |
| ImageNames.StripInOffset | scripts/batch_image_optimizer.py:106 | what `strip` leaves is a window of its input |
| ImageNames.CollapseShape | scripts/batch_image_optimizer.py:113 | collapsing dashes leaves no `--` and keeps the first character |
| ImageNames.NameShape | scripts/batch_image_optimizer.py:105-113 | the name part is `[a-z0-9_-]*`, has no `--`, and neither starts nor ends with `-` |
| ImageNames.NormalizedName | scripts/batch_image_optimizer.py:104-113 | the name part of `_normalize_filename`; `NameShape` states its shape and `DatedName` the documented example |
| ImageNames.DateCollapses | scripts/batch_image_optimizer.py:110 | `YYYY[-_]?MM[-_]?DD` becomes `YYYYMMDD` |
| ImageNames.PlainPrefixDates | scripts/batch_image_optimizer.py:110 | text without digits is copied by the date pass |
| ImageNames.DatedName | scripts/batch_image_optimizer.py:100-119 | `Word YYYY-MM-DD.ext` becomes `word-YYYYMMDD.webp`, as `Photo 2025-07-01.PNG` becomes `photo-20250701.webp` |
| ImageNames.DatedSplit | scripts/batch_image_optimizer.py:102 | the extension split takes the last `.` and its suffix |
| ImageNames.DashSpacesOne | scripts/batch_image_optimizer.py:106 | a single space between two words becomes `-` |
| ImageNames.KeepAll | scripts/batch_image_optimizer.py:105 | text of word characters, whitespace and `-` keeps every character |
| ImageNames.OptimizeImages | scripts/batch_image_optimizer.py:130-175 | the loop appends one classified report per existing file, in order |
| ImageNames.Classify | scripts/batch_image_optimizer.py:135-168 | a missing file gives no report, a raised exception `error`, a GIF `skipped`, an error result `error`, anything else `optimized`; `OptimizeImages` and `SummaryAddsUp` use it |
| ImageNames.ReportsFiles | scripts/batch_image_optimizer.py:134-136 | the reported files are exactly the existing files, in order |
| ImageNames.SummaryAddsUp | scripts/batch_image_optimizer.py:157-175 | optimised, skipped and failed reports add up to the number of reports |
| QualityChecker.CheckMetadata | scripts/quality_checker.py:44-57 | the issues are one per missing or falsy required field, then the date issue; `passed` exactly when there is none |
| QualityChecker.MetadataPassedIff | scripts/quality_checker.py:44-57 | the check passes exactly when both fields are set and a creation date, if any, starts with `dddd-dd-dd` |
| QualityChecker.FieldIssueIff | scripts/quality_checker.py:47-49 | a required field has its issue exactly when it is missing or falsy |
| QualityChecker.DateIssueIff | scripts/quality_checker.py:50-53 | the date issue is there exactly when `param_created` is present and malformed |
| QualityChecker.DatePrefixOnly | scripts/quality_checker.py:51-52 | only the prefix of the date is checked |
| QualityChecker.HeadingAt | scripts/quality_checker.py:105 | a heading has level at least one |
| QualityChecker.CheckFormat | scripts/quality_checker.py:103-113 | the issues are the heading issue and the blank-line issue, each when due; `passed` exactly when there is none |
| QualityChecker.FormatPassedIff | scripts/quality_checker.py:103-113 | the check passes exactly when the first heading, if any, is level 1 and no three newlines occur |
| QualityChecker.NoHashNoHeading | scripts/quality_checker.py:105-106 | text without `#` has no heading, so no heading issue |
| QualityChecker.OpeningHeading | scripts/quality_checker.py:105 | `n` hashes then whitespace at the start are a heading of level `n` |
| QualityChecker.TagNoHeading | scripts/quality_checker.py:105 | a hash run glued to a word is no heading |
| QualityChecker.LaterHeadingIgnored | scripts/quality_checker.py:105-107 | a leading `##` heading is reported whatever follows |
| QualityChecker.UrlAt | scripts/quality_checker.py:79 | a URL match is non-empty and within the text |
| QualityChecker.WikiAt | scripts/quality_checker.py:81 | an internal-link match is non-empty and within the text |
| QualityChecker.CheckLinks | scripts/quality_checker.py:77-88 | the link check always passes with no issues |
| QualityChecker.CountsBounded | scripts/quality_checker.py:79-86 | neither count exceeds the text length |
| QualityChecker.NoBracketNoWiki | scripts/quality_checker.py:81-82 | text without `[` has no internal link |
| QualityChecker.DirectiveCounted | scripts/quality_checker.py:81-86 | an image directive `![[name]]` counts as one internal link |
| QualityChecker.ReadingTime | scripts/quality_checker.py:96 | the reading time is at least one minute |
| QualityChecker.RoundNearest | scripts/quality_checker.py:96 | `round` is within half a unit, and a tie goes to the even neighbour |
| QualityChecker.ReadingTimeMonotone | scripts/quality_checker.py:96 | more characters never give fewer minutes |
| QualityChecker.ReadingTimeSmall | scripts/quality_checker.py:96 | under 600 characters is one minute; 600 and 1000 are two, since halves round to even |
| QualityChecker.ReadingTimeNear | scripts/quality_checker.py:96 | from 200 characters on, the minutes are the characters over 400, within half a minute |

## Left out

- Logging, `print`, the JSON report file and all other I/O are left out.
- The filesystem is a set of existing files. `rglob` is a parameter function returning paths in an unspecified order.
- PathJoin, BaseName and Stem: paths are strings, not pathlib objects. `BaseName` drops trailing `/` as `Path.name` does. `PathJoin` always puts `/` between its parts, so an absolute file name does not replace the directory as `base_dir / name` would. Neither normalises `.` components or repeated `/`, and a name holding `/` is passed to `rglob` as it is.
- YAML loading and the Markdown converter are parameter functions (`load`, `convert`). CommonMark and YAML themselves are not modelled.
- `add_prism_plugins` and the literal CSS strings are kept as constants. Only their absence of `<` is used.
- Character classes are ASCII only: `\w`, `\s`, `str.lower`, `str.capitalize` and `\d` are not Unicode-aware here.
- The first `_generate_alt_text` definition (obsidian_processor.py:53-64) is not modelled, because the second definition overrides it.
- `ImageOptimizer.optimize`, `_generate_responsive_sizes`, `_calculate_size_reduction` and `StandaloneImageOptimizer.optimize` are not modelled. They rely on PIL, file writes and floating point.
- ImageNames.OptimizeImages: the file renames and backup are not modelled, and neither is the `size_reduction` value. An exception raised by a rename counts as `Raised`.
- ImageNames.NormalizeFilename: its contract gives only the suffix. The shape of the name part is stated by `ImageNames.NameShape` and the date example by `ImageNames.DatedName`.
- `process_article.py` is modelled only in the order of its passes (`ArticleBody`, as written; `ArticleBodyCorrected` is the corrected order of the third finding).
  - Its network upload is left out.
  - So are its environment handling and its output.
  - The `width` key that it never copies into `image_mapping` is also left out. The figure model takes a width so that both branches of `_create_figure_html` are covered.
- `parse_file` is not part of this model: no file shown defines it.
- QualityChecker.ReadingTime: the character count is an input. How `_calculate_statistics` computes `text_only` is not modelled, and neither is the word count. `round(c / 400)` on floats is exact only up to 2^53. Beyond that the model's exact half-even rounding may differ.
- `check_article` and `_check_images` are not modelled. They stat files and compute sizes in floating-point megabytes.
- The code follows `process_obsidian_syntax` as written, which has no `!` lookbehind. A description of the system that says image directives are excluded there disagrees with the code.

## Findings

| source | as written | input that shows it | evidently intended | confidence | as-written member | corrected member |
|---|---|---|---|---|---|---|
| scripts/utils/markdown_parser.py:141-143 | placeholders are restored in the order they were saved, so an inline span that holds a saved fence is restored after the fence it contains | ``"`a```b```c`"``: the output holds `%%%CODEBLOCK_0%%%` instead of the fence | protected code comes back verbatim (restore in reverse order) | high, not executed | MarkdownParser.NestedFenceLeaksPlaceholder | MarkdownParser.NestedFenceRestored |
| scripts/utils/obsidian_processor.py:114-116 | `-` becomes a space before the date pattern runs, so `\d{4}-\d{2}-\d{2}` can never match | the file `2025-07-01.png` with no caption gets alt text `2025 07 01` | dashed dates are removed like eight-digit ones, giving `image` | medium, not executed | ObsidianProcessor.AltTextKeepsDashedDate | ObsidianProcessor.AltTextDropsDashedDate |
| scripts/process_article.py:46-87 | the syntax pass rewrites `![[p]]` to `![p](/articles/…)` before `update_image_references` looks up the key `![[p]]` | `![[a.png]]` with an uploaded image: no figure appears | the image directive is replaced by its figure (the syntax pass spares `![[`, as the Markdown preprocessor does) | high, not executed | ObsidianProcessor.DirectiveLostAsWritten | ObsidianProcessor.DirectiveReplaced |


The pipelines `ToHtml`, `ExtractImages` and `ArticleBody` follow the code as
written. The corrected definitions `ConvertCorrected`, `AltTextCorrected` and
`ArticleBodyCorrected` stand beside them, with the intended property proved.
