# Islamic AI chat component — a Dafny model

This project models the chat component of the Islamic AI assistant, a React
single-page app. The model covers four parts:

- **Reply formatting** (`formatMessageContent`). An answer is cut into sections
  at blank lines. Each section becomes one typed block, picked by a fixed
  precedence chain: Arabic text, Quranic verse (with its reference in
  parentheses), hadith (its text line, then its reference), translation,
  bullet list, quote, and plain paragraph when nothing else applies.
  - Blocks are laid out right to left for Arabic and Urdu replies.
  - Arabic blocks are always right to left.
- **Language tables.** There are three lookups: the system instructions sent
  with every question, the greeting a session opens with, and the
  presentation entry. The presentation entry holds the direction, font,
  honorifics, placeholder, "thinking" label, send label and greeting. Each
  lookup takes a free-form language tag and falls back to English.
- **Language detection.** `detectLanguage` wraps a statistical detector.
- **The chat session.** The session has a message log that only grows, the
  text being typed, and a loading flag. `sendMessage` logs the question,
  sends one completion request, and logs exactly one answer: the reply, or a
  fixed apology when anything fails. The placeholder, the send button's
  disabled state, and the input field's lock while a request is in flight
  are also modelled.

The modules follow the component's layers:

| file | module | what it holds |
|---|---|---|
| `text.dfy` | `JsText` | The JavaScript string operations the component relies on: whitespace, `trim`/`trimStart`, `indexOf`, `includes`, `split` on one character, `join`, `toLowerCase`. |
| `sections.dfy` | `BlankLineSplit` | `text.split(/\n\s*\n/)`, with the regular expression's greedy, leftmost matching written out. |
| `formatter.dfy` | `Formatter` | The blocks, the precedence chain, and the block built for each kind. |
| `languages.dfy` | `Languages` | The three lookups and `detectLanguage`. |
| `session.dfy` | `Session` | The log invariant, the `Chat` class (`messages`, `input`, `isLoading`) and `sendMessage`. |

`sendMessage` is asynchronous. `Chat.Submit` is its synchronous part, up to
the network call, and returns the request it would send. `Chat.Resolve` is
what happens once the call settles, with the result given as an `Outcome`.
The detector's ranked guesses are a parameter of `DetectLanguage`, since the
detector is outside the component.

Where the code and its documentation disagree, the model follows the code:

- `detectLanguage` returns English only for the empty string or an empty
  detector result. Whitespace-only text still goes to the detector.
- `detectLanguage` returns the detector's top guess lower-cased, even when it
  is not one of the four supported languages (`DetectionIsOpenEnded`). The
  lookups then fall back to English for it.

## Model

| member | source | states |
|---|---|---|
| JsText.TrimStart | src/components/IslamicAI.tsx:409 | The result is a suffix of the input, everything removed is whitespace, and the result does not start with whitespace. |
| JsText.TrimEnd | src/components/IslamicAI.tsx:346 | The result is a prefix of the input, everything removed is whitespace, and the result does not end with whitespace. |
| JsText.Trim | src/components/IslamicAI.tsx:346 | The result neither starts nor ends with whitespace, and it is empty exactly when the input is all whitespace. |
| JsText.TrimOfPadded | src/components/IslamicAI.tsx:358 | Trimming text padded with whitespace on both sides gives back the text. |
| JsText.IndexOf | src/components/IslamicAI.tsx:372 | Finds the first occurrence of the character, and finds none exactly when the character is absent. |
| JsText.ContainsOccurs | src/components/IslamicAI.tsx:345 | `includes` holds exactly when the pattern occurs at some position. |
| JsText.SplitOnPieces | src/components/IslamicAI.tsx:372 | No piece of `split('\n')` contains the separator. |
| JsText.JoinSplitOn | src/components/IslamicAI.tsx:372-373 | Joining the pieces of a split with the same separator gives back the string. |
| JsText.SplitOnRest | src/components/IslamicAI.tsx:372-373 | The first piece is the text before the first separator; the other pieces, rejoined, are the text after it. |
| JsText.ToLower | src/components/IslamicAI.tsx:1274 | Same length, every upper-case ASCII letter becomes its lower-case letter (code point plus 32), and every other character is kept. |
| BlankLineSplit.MatchAtIsGreedy | src/components/IslamicAI.tsx:339 | A separator match is a line break, whitespace and a line break. It extends to the last line break reachable across whitespace, and it is missing exactly when no second line break follows across whitespace. |
| BlankLineSplit.SectionsReassemble | src/components/IslamicAI.tsx:339 | The sections, with the separators put back between them, give the reply. There is one more section than separators. Every separator is a blank-line run. |
| BlankLineSplit.SectionsAreClean | src/components/IslamicAI.tsx:339 | No section holds a blank line. No line break is left in the whitespace beside a cut. No section between two separators is all whitespace, so adjacent blank lines make one cut. |
| BlankLineSplit.SectionsWithoutBlankLine | src/components/IslamicAI.tsx:339 | A reply without a blank line is one section, the whole reply. |
| BlankLineSplit.SectionsOfEmpty | src/components/IslamicAI.tsx:339 | The empty reply splits into one empty section. |
| BlankLineSplit.SectionsCons | src/components/IslamicAI.tsx:339 | A first line followed by a blank line is the first section, and the rest is split on its own. |
| BlankLineSplit.SectionsWithOneLineBreak | src/components/IslamicAI.tsx:339 | A single line break does not separate sections. |
| Formatter.StripMarkers | src/components/IslamicAI.tsx:346 | Removing the markers never lengthens the section. |
| Formatter.StripWithoutBracket | src/components/IslamicAI.tsx:346 | Text with no `[` is left unchanged by marker removal. |
| Formatter.StripAppend | src/components/IslamicAI.tsx:356 | Marker removal distributes over a concatenation whose second part starts with `[`: no marker straddles the cut. |
| Formatter.StripWrapped | src/components/IslamicAI.tsx:371 | Text wrapped in its own pair of markers loses exactly the two markers. |
| Formatter.VerseReference | src/components/IslamicAI.tsx:357 | A match splits the content into the text before the first `(` and the capture up to the final `)`. With no match, the content does not end in `)` or has no `(`. |
| Formatter.VerseReferenceFinds | src/components/IslamicAI.tsx:357-359 | Text without `(` followed by a parenthesised part is always matched, with that part as the capture. |
| Formatter.VerseReferenceFromFirstParenthesis | src/components/IslamicAI.tsx:357 | The lazy capture still starts at the first `(`: `a (b) c (d)` captures `b) c (d`. |
| Formatter.VerseSegment | src/components/IslamicAI.tsx:356-366 | The result is a verse block with the reply's direction, and a reference is shown only when non-empty. |
| Formatter.VerseSegmentWithReference | src/components/IslamicAI.tsx:357-364 | Content ending in a parenthesised part after text without `(` renders that text trimmed and the part as the reference, whatever else the text holds. |
| Formatter.HadithSegment | src/components/IslamicAI.tsx:371-380 | The result is a hadith block whose text has no line break, and a reference is shown only when non-empty. |
| Formatter.HadithSplitsAtFirstLineBreak | src/components/IslamicAI.tsx:372-378 | The hadith text is everything before the first line break. The reference is the rest, trimmed, and absent when that is blank. |
| Formatter.HadithWithoutLineBreak | src/components/IslamicAI.tsx:372-373 | Content on one line is all hadith text, with no reference. |
| Formatter.BulletItem | src/components/IslamicAI.tsx:399 | Every rendered item starts with `• `, and a line without a leading glyph is kept whole behind it. |
| Formatter.BulletItemNormalises | src/components/IslamicAI.tsx:399 | A glyph, whitespace and text render as `• ` and the text, so no glyph is doubled. |
| Formatter.NonBlankLines | src/components/IslamicAI.tsx:395 | The filter never adds lines. |
| Formatter.NonBlankLinesKeeps | src/components/IslamicAI.tsx:395 | The filter keeps exactly the lines that are not all whitespace. |
| Formatter.NonBlankLinesAppend | src/components/IslamicAI.tsx:395 | Filtering a concatenation filters each part, in order, so the kept lines keep their order and repeats. |
| Formatter.NonBlankLinesOne | src/components/IslamicAI.tsx:395 | A single line is dropped exactly when it is all whitespace, and is otherwise kept unchanged. |
| Formatter.BulletItems | src/components/IslamicAI.tsx:398-399 | One item per kept line, in order, each rendered by `BulletItem`. |
| Formatter.FormatSection | src/components/IslamicAI.tsx:343-416 | Arabic blocks are right to left; every other block has the reply's direction. |
| Formatter.Build | src/components/IslamicAI.tsx:345-415 | The block built for a kind is of that kind, and right to left when it is Arabic or the reply is. |
| Formatter.FormatSections | src/components/IslamicAI.tsx:343 | One block per section, in order. |
| Formatter.FirstApplyingIsChain | src/components/IslamicAI.tsx:345-415 | The source's if-chain is the search for the first applicable rule in the precedence order. |
| Formatter.KindFollowsPrecedence | src/components/IslamicAI.tsx:345-415 | Every section becomes the kind of the first rule, in order, that applies to it. |
| Formatter.EarlierRuleWins | src/components/IslamicAI.tsx:345-415 | A rule that applies beats every later rule in the order. |
| Formatter.UnmarkedSectionIsRawParagraph | src/components/IslamicAI.tsx:415 | A section that no rule applies to is a paragraph of its raw, untrimmed text. |
| Formatter.BlocksFollowSections | src/components/IslamicAI.tsx:337-343 | The reply gives one block per section of the blank-line split, in the same order. |
| Formatter.BlockDirections | src/components/IslamicAI.tsx:338 | Every block is right to left exactly when it is Arabic or the language is Arabic or Urdu. |
| Formatter.DirectionAgreesWithConfig | src/components/IslamicAI.tsx:338 | The formatter's right-to-left languages are exactly the ones whose table entry is right to left. |
| Formatter.EmptyReply | src/components/IslamicAI.tsx:339 | The empty reply renders as one empty paragraph. |
| Formatter.UnmarkedChain | src/components/IslamicAI.tsx:394-415 | A section without `[` is classified by its first character alone: bullet glyph, `>`, or neither. |
| Formatter.ArabicWrapped | src/components/IslamicAI.tsx:345-346 | Text wrapped in Arabic markers is chosen as Arabic and loses exactly the markers. |
| Formatter.VerseWrapped | src/components/IslamicAI.tsx:355-356 | Text wrapped in verse markers is chosen as a verse and loses exactly the markers. |
| Formatter.HadithWrapped | src/components/IslamicAI.tsx:370-371 | Text wrapped in hadith markers is chosen as a hadith and loses exactly the markers. |
| Formatter.TranslationWrapped | src/components/IslamicAI.tsx:384-385 | Text wrapped in translation markers is chosen as a translation and loses exactly the markers. |
| Formatter.ArabicSection | src/components/IslamicAI.tsx:345-351 | An Arabic block is its wrapped text trimmed, and it is right to left whatever the reply's language. |
| Formatter.VerseSection | src/components/IslamicAI.tsx:355-366 | A verse ending in a parenthesised reference renders the trimmed text and the reference. An empty `()` is removed but shows no reference. |
| Formatter.VerseWithoutReference | src/components/IslamicAI.tsx:358 | A verse with no trailing reference keeps its text untrimmed. |
| Formatter.HadithSection | src/components/IslamicAI.tsx:370-381 | A hadith block renders its first line as the text and the rest, trimmed, as the reference. |
| Formatter.TranslationSection | src/components/IslamicAI.tsx:384-390 | A translation block is its wrapped text trimmed. |
| Formatter.ArabicOverVerse | src/components/IslamicAI.tsx:345-356 | Only opening markers are tested, and only the winning kind's markers are removed. A verse wrapped in Arabic markers is an Arabic block that still shows the verse markers. |
| Formatter.QuoteSection | src/components/IslamicAI.tsx:406-411 | A quote loses its `>` and the whitespace after it. |
| Formatter.BulletSection | src/components/IslamicAI.tsx:394-403 | A section starting with `•` or `-` is a list of its non-blank lines. |
| Formatter.ParagraphSection | src/components/IslamicAI.tsx:415 | A plain line is a paragraph of itself. |
| Formatter.BulletContinuation | src/components/IslamicAI.tsx:394-399 | A line without a glyph under a bullet line becomes an item of its own, its text kept whole behind `• `. |
| Formatter.TwoBulletLines | src/components/IslamicAI.tsx:394-403 | Two bullet lines become two items, in order. |
| Formatter.OneLineReply | src/components/IslamicAI.tsx:339-343 | A reply on one line is a single block. |
| Formatter.ThreeParagraphs | src/components/IslamicAI.tsx:339-415 | Paragraphs separated by blank lines stay separate and in order, with the reply's direction. |
| Formatter.ArabicReply | src/components/IslamicAI.tsx:337-351 | A one-line Arabic reply is one right-to-left Arabic block. |
| Formatter.VerseReply | src/components/IslamicAI.tsx:337-366 | A one-line verse with a reference renders the verse text without its trailing whitespace, and the reference. |
| Formatter.HadithReply | src/components/IslamicAI.tsx:337-381 | A two-line hadith reply is one hadith block with its reference. |
| Formatter.BulletReply | src/components/IslamicAI.tsx:337-403 | A two-line bullet reply is one list of two items. |
| Formatter.NormalisedBullets | src/components/IslamicAI.tsx:394-403 | Lines written `• x` and `• y` list x and y behind a single glyph each. |
| Languages.Resolve | src/components/IslamicAI.tsx:1333 | A supported tag selects its own entry. Every other tag selects English. |
| Languages.ResolveTagOf | src/components/IslamicAI.tsx:1333 | A language's own tag selects that language. |
| Languages.SystemPromptForLanguage | src/components/IslamicAI.tsx:479-604 | Each supported tag gets its own instructions. Any other tag gets the English ones. |
| Languages.WelcomeMessage | src/components/IslamicAI.tsx:606-615 | Each supported tag gets its own greeting. Any other tag gets the English one. |
| Languages.LanguageConfigFor | src/components/IslamicAI.tsx:1277-1334 | Each supported tag gets its own presentation entry. Any other tag gets the English entry. |
| Languages.PlaceholderPresent | src/components/IslamicAI.tsx:1287-1326 | Every entry has a non-empty placeholder. |
| Languages.PromptsDistinct | src/components/IslamicAI.tsx:479-601 | No two languages share their instructions. |
| Languages.WelcomesDistinct | src/components/IslamicAI.tsx:607-612 | No two languages share their greeting. |
| Languages.ConfigsDistinct | src/components/IslamicAI.tsx:1278-1331 | No two languages share a presentation entry. |
| Languages.RightToLeftLanguages | src/components/IslamicAI.tsx:1280-1333 | A tag's entry is right to left exactly when the tag is `arabic` or `urdu`. |
| Languages.DetectLanguage | src/components/IslamicAI.tsx:1266-1275 | English for the empty text or no guess; otherwise the top guess lower-cased. The result never holds an upper-case letter. |
| Languages.DetectedLanguageSelectsTables | src/components/IslamicAI.tsx:1266-1275 | A top guess naming a supported language, in any letter case, selects that language's tables. |
| Languages.DetectKeepsLowerCaseTag | src/components/IslamicAI.tsx:1274 | A guess that is a supported tag comes back unchanged. |
| Languages.DetectionIsOpenEnded | src/components/IslamicAI.tsx:1266-1275 | For any non-empty text, whitespace-only included, a lower-case guess outside the four languages comes back as it is, not as English. Only the lookups then fall back to English. |
| Languages.SpaceIsDetected | src/components/IslamicAI.tsx:1267 | An input of one space is not treated as empty: the detector's guess is returned. |
| Session.ReplyText | src/components/IslamicAI.tsx:1383-1408 | The reply is the content when the call succeeded with non-empty content, and the apology otherwise. It is never empty. |
| Session.RequestFor | src/components/IslamicAI.tsx:1362-1380 | The request carries the instructions for the detected language, the input as typed, 4000 tokens and temperature 0.1. |
| Session.WelcomeEntryIsLookup | src/components/IslamicAI.tsx:1239-1243 | The opening message is the welcome lookup for `english`, tagged English. |
| Session.WelcomeLogWellFormed | src/components/IslamicAI.tsx:1239-1245 | The opening log is well formed and idle. |
| Session.AskKeepsShape | src/components/IslamicAI.tsx:1342-1352 | Logging a non-blank question on an idle log keeps the log well formed and starts loading. |
| Session.AnswerKeepsShape | src/components/IslamicAI.tsx:1397-1410 | Logging the answer, in the question's language, keeps the log well formed and stops loading. |
| Session.AppendKeeps | src/components/IslamicAI.tsx:1342-1410 | Questions and answers appended in turn keep the log well formed and flip the loading flag. |
| Session.IdleLogIsPairs | src/components/IslamicAI.tsx:1336-1412 | An idle log is the greeting followed by complete question-and-answer pairs, each answer in its question's language. |
| Session.Chat.constructor | src/components/IslamicAI.tsx:1239-1245 | A new session holds the greeting, nothing typed, and nothing loading. |
| Session.Chat.SetInput | src/components/IslamicAI.tsx:1259-1261 | Typing needs an idle session, since the input field is disabled while a request is in flight (line 1475). It replaces the input and changes nothing else. |
| Session.Chat.SendDisabled | src/components/IslamicAI.tsx:1479 | The send button is disabled exactly when a send would be refused. |
| Session.Chat.Submit | src/components/IslamicAI.tsx:1336-1380 | A refused send changes nothing and sends nothing. Otherwise the input is logged as the user's message in the detected language, the input is cleared, loading starts, and the request for that input is returned. |
| Session.Chat.Resolve | src/components/IslamicAI.tsx:1382-1411 | Exactly one assistant message is logged, in the question's language, holding the reply or the apology. Loading stops, and the input, cleared by the send, is still empty. |
| Session.Placeholder | src/components/IslamicAI.tsx:1474 | The placeholder is the one for the language detected in the input, and it is never empty. |
| Session.EmptyInputPlaceholder | src/components/IslamicAI.tsx:1474 | An empty input field shows the English placeholder. |
| Session.FailedRequest | src/components/IslamicAI.tsx:1336-1411 | After a rejected first request, the log is the greeting, the message as typed, and the apology in that message's language, and nothing is loading. |
| Session.BlankSendIgnored | src/components/IslamicAI.tsx:1337 | Sending only whitespace adds nothing to the log and sends nothing. |

## Left out

- These parts of the component are not modelled: styling, the sidebar and its sections, time formatting, the textarea auto-resize, and scrolling.
- The JSX tree is reduced to a sequence of typed blocks. Keys, class names and the nesting of the hadith block's two parts are not kept.
- The HTTP call is not modelled: the endpoint, the headers and the API key read from the environment. Only the request body and the way the call settles (`Outcome`) are kept.
- Error messages thrown inside the `try` are not modelled; only the apology they lead to is visible. Console logging is left out.
- Session.Chat.Submit and Session.Chat.Resolve are two steps. Between them a send is refused and typing is locked. React's state batching and the functional `setMessages(prev => …)` updates are not modelled. Neither is a second send that would be accepted before the loading flag was seen.
- Languages.DetectLanguage: the statistical detector is outside the component. Its ranked guesses are a parameter, and its confidences are dropped.
- Languages.SystemPromptForLanguage: the four long hand-written instruction texts are data. Each is stood for by a distinct constant, so the lookup and fallback logic is modelled but not the wording.
- Languages.WelcomeMessage: the four greeting texts are stood for by distinct constants, like the instructions.
- Languages.LanguageConfigFor: a tag such as `constructor`, which names a property inherited by every JavaScript object, would return that property instead of falling back to English. Such tags are treated like any other unsupported tag.
- JsText.ToLower lowercases ASCII letters only; `toLowerCase` also maps letters of other scripts.
- Strings are sequences of characters. UTF-16 surrogate pairs are not modelled; every character the component inspects (`[`, `(`, `)`, `>`, `•`, `-`, whitespace, line breaks) is a single code unit.
- The whitespace set is the one JavaScript uses for `\s` and `trim`.
