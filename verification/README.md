# irc-parse-line in Dafny

A model of `parseIrcLine`, the single-pass IRC line parser of
irc-parse-line (`index.js`), together with its two exported helpers
`findEol` and `nonSpacePos`. The parser walks one line from left to right
through four sections in a fixed order:

- optional `@tags`: split on `;` and `=`, with values unescaped as in
  "Escaping values" of the IRCv3 Message Tags specification;
- optional `:prefix`: split into source, user and host at the first `!`
  and at the first `@` found from one position before it;
- the mandatory verb: three digits or one or more ASCII letters;
- the parameters: middle ones split on spaces, and a trailing one after
  the first `:`.

The only failure is `InvalidMessage`, for an empty line or a verb that is
not valid. Every other section degrades to whatever its index arithmetic
yields. The model keeps that arithmetic as written:

- `indexOf` gives -1 when nothing is found, and `slice(a, -1)` then drops
  the last character;
- a cursor that restarts at 0 makes the verb start with `@` or `:`;
- one character before a `:` is always dropped;
- the escape state is shared across tags.

Modules follow the parts of the source:

- `JsText`: the JavaScript string built-ins (`slice`, `indexOf`, `split`,
  `join`).
- `Scanner`: `nonSpacePos` and `findEol`.
- `Tags`, `Prefix`, `Verb` and `Params`: the section parsers.
- `IrcLine`: the phases and `parseIrcLine`.

The lemmas sit in further modules:

- `Sections`, `ParamsShape` and `Layout`: what each phase computes on a
  line of known shape.
- `Rejections`: when the verb gate fails.
- `LineFormat`: a sender's serializer, with the round trip from a parsed
  record through its line back to the same record.
- `Samples`: the repository's own test lines.

The source raises `InvalidMessage` as an exception. The model returns it
as the `InvalidMessage` case of `Result`.

## Model

| member | source | states |
|---|---|---|
| Scanner.NonSpacePos | index.js:55-60 | the cursor moves over exactly the run of spaces starting at it, onto the first non-space or the end of the line; it never moves from a position past the end |
| Scanner.FindEol | index.js:70-74 | from a start inside the line, the result is the least position at or after the start from which only CR/LF follow, so spaces before the terminator stay content; from a start past the end it is the line length |
| Scanner.FindEolFromStart | index.js:70-74 | the end found from any start is the end found from 0, unless the start is already beyond it, which is what lets `findEol(line)` at line 162 and `findEol(line, pos)` at line 148 agree |
| Scanner.FindEolLeast | index.js:70-74 | no position between the start and the result is already followed by nothing but CR/LF (the match is the leftmost one) |
| Scanner.FindEolAt | index.js:70-74 | a position followed by nothing but CR/LF, with a non-terminator just before it, is the end found from any earlier start |
| Scanner.FindEolWholeLine | index.js:70-74 | a line whose last character is not CR or LF has its whole length as content |
| JsText.JsSlice | index.js:95 | `String.prototype.slice`: in-range bounds give the substring, crossed bounds the empty string, and an end of -1 everything but the last character, or nothing when the start is at or past the end (as on the line `@`) |
| JsText.IndexOf | index.js:93 | `String.prototype.indexOf`: the first occurrence at or after the (clamped) start, or -1 when there is none |
| JsText.IndexOfAt | index.js:93 | the first occurrence is found exactly where the character is, with none of it between the start and there |
| JsText.IndexOfNone | index.js:149 | without the character after the start, the search gives -1 |
| JsText.Split | index.js:96 | `String.prototype.split` on one character: at least one piece, no piece holds the separator, and joining the pieces gives the text back |
| JsText.SplitJoin | index.js:155 | splitting is the inverse of joining pieces that do not hold the separator |
| Verb.ValidVerb | index.js:37 | `RE_CMD_VALIDATION`: exactly three ASCII digits, or one or more ASCII letters |
| Verb.ValidVerbShape | index.js:139-145 | a verb that passes the gate is non-empty and holds no space, `:`, `@`, CR or LF |
| Verb.VerbExamples | test/index.test.js:103-116 | `123`, `CAP` and `PING` pass the gate; the empty word, `1`, `12`, `1234`, spaces, `@just-tag` and `12a` do not |
| Tags.Unescape | index.js:99-111 | unescaping never lengthens a value; a value without a backslash and with no escape pending is kept as it is; a value that keeps its length had no backslash to drop; what each escaped character stands for is stated by Tags.UnescapeUnknown (outside the table) and Tags.UnescapeEscape (the five table entries) |
| Tags.UnescapeUnknown | index.js:102-104 | a backslash before a character the `TAGS_UNESCAPE` table does not list gives that character itself, and unescaping goes on after it with no escape pending |
| Tags.UnescapeEscape | index.js:99-111 | unescaping undoes the IRCv3 escaping of any text and leaves nothing pending |
| Tags.TrailingBackslash | index.js:101-107 | a lone backslash at the end of a value produces nothing and leaves the escape pending |
| Tags.ParseTag | index.js:97-113 | the key is the token up to its first `=`, and the value is `Flag` exactly when the token has no `=` |
| Tags.ParseTagValue | index.js:98-112 | `k=v` with maybe a further `=...` is the key `k` with `v` unescaped; an empty `v` gives the empty text and does not touch the escape state |
| Tags.ParseTagFlag | index.js:98-112 | a token without `=` is a flag and does not touch the escape state |
| Tags.ParseTagList | index.js:94-113 | one tag per token, in order, each keyed by its token's text before `=`, a flag exactly when the token has no `=` |
| Tags.ParseTags | index.js:91-113 | the tag text always gives at least one tag, even when it is empty |
| Tags.ParseFormatTag | index.js:97-113 | a well-formed tag written as `key` or `key=escaped` parses back to itself, with nothing pending |
| Tags.ParseTagListFormat | index.js:94-113 | a list of well-formed tags written as tokens parses back to the same list |
| Tags.TagsRoundTrip | index.js:91-113 | a non-empty list of well-formed tags written with `;` holds no space, and parses back to the same list in order, duplicates kept |
| Tags.EscapeCarriesOver | index.js:94-107 | a value ending in a lone backslash makes the first character of the next tag's value count as escaped |
| Prefix.SplitPrefix | index.js:117-135 | a user comes only with a host; without a host, or without any `@`, the whole prefix is the source; with an `@` but no `!` there is a host and no user |
| Prefix.SplitPrefixReassembles | index.js:121-135 | the parts are pieces of the prefix: with a host alone, source `@` host is the prefix; with a user, source `!` user `@` host is the prefix, or with the `@` right before the `!` the user is empty and source and host make up the prefix |
| Prefix.SplitPrefixAt | index.js:122-127 | with the first `!` at u and the first `@` from u-1 on at h > u, the parts are the text before u, between u and h, and after h |
| Prefix.SplitPrefixSourceOnly | index.js:122-135 | with the first `!` at u (or none), the whole prefix is the source with no user or host exactly when no `@` lies at or after u-1 |
| Prefix.SplitPrefixAdjacent | index.js:122-127 | an `@` right before the first `!` splits the prefix there: the source keeps the `@`, the user is empty, and the host starts with the `!` |
| Prefix.SplitFullPrefix | index.js:124-127 | `source!user@host` with no separator in the source and no `@` in the user splits into exactly those three parts |
| Prefix.SplitHostPrefix | index.js:128-130 | `source@host` with no `!` in either part splits into a source and a host, with no user |
| Prefix.PrefixRoundTrip | index.js:117-135 | every well-formed origin written as `source[!user][@host]` splits back into itself |
| Prefix.AtBeforeBang | index.js:123 | `a@!b` gives source `a@`, an empty user and host `!b` |
| Params.TrimTrailingEmpties | index.js:155-157 | the `while` loop keeps a prefix of the pieces, drops only empty strings, and leaves a list that is empty or ends in a non-empty piece |
| Params.PopEmpty | index.js:159-160 | the single `pop` drops the last piece when it is empty and keeps the list otherwise |
| Params.TrimmedJoinPadded | index.js:155-157 | after the trailing empty pieces are dropped, the pieces joined with spaces are the text less only its trailing spaces |
| IrcLine.TagsPhase | index.js:91-115 | a tag section exactly when the line starts with `@`; its raw text holds no space, and the cursor stays inside the line |
| IrcLine.PrefixPhase | index.js:117-137 | a prefix section exactly when the cursor is on `:`; its raw text holds no space, and the cursor stays inside the line |
| IrcLine.VerbPhase | index.js:139-146 | the verb holds no space, and the cursor after it lands between 1 and one past the end of the line |
| IrcLine.ParamsPhase | index.js:148-166 | the parameter list is absent or non-empty, never an empty list |
| IrcLine.ParseIrcLine | index.js:82-169 | the empty line fails; a success carries a valid verb, tags exactly when the line starts with `@`, a user only with a host, a host only with a source, and no empty parameter list |
| IrcLine.Assemble | index.js:91-137 | the record has tags exactly when there was tag text and a source exactly when there was prefix text; a user comes only with a host and a host only with a source |
| Sections.Token | index.js:93-95 | a space-free token followed by spaces is found whole by the space search and `slice`, and the cursor skips all of its spaces |
| Sections.TagsPhaseAt | index.js:91-114 | a line opening with `@`, a space-free token and a run of spaces gives that token as the raw tag text and puts the cursor after the run |
| Sections.PrefixPhaseAt | index.js:117-136 | a cursor on `:`, then a space-free token and a run of spaces, gives that token as the raw prefix and puts the cursor after the run |
| Sections.VerbPhaseAt | index.js:139-146 | a space-free word and a run of spaces at the cursor is the verb, and the cursor goes past the run |
| Sections.VerbPhaseLast | index.js:139-146 | a space-free word followed only by a terminator is the verb without the terminator, and the cursor goes one past its end |
| Sections.VerbPhaseSpaced | index.js:139-146 | a space-free word written behind any text, then a run of exactly `gap` spaces: the verb is the word and the cursor lands after the run |
| Sections.ParamsPhaseEmpty | index.js:155-165 | nothing but a terminator after the cursor gives no parameters |
| Sections.ParamsPhaseAt | index.js:149-162 | with the first `:` after the cursor at t, the parameters are the popped middle pieces followed by the trailing text |
| Sections.TrailingTextAt | index.js:162 | the trailing parameter is everything after the `:` up to the end of a line that has no terminator |
| Sections.MiddleBeforeAt | index.js:158-160 | middle parameters written with one space after each, up to a `:`, come back as written once the character before the `:` is dropped |
| Sections.ParamsTrailingAt | index.js:148-162 | middle parameters with single spaces, then `:` and a trailing parameter to the end of the line, come back as written |
| ParamsShape.TrimmedPieces | index.js:155-157 | without a `:`, the pieces kept are empty exactly when the content is all spaces; they hold no space; and joined with spaces they are the content less its trailing spaces |
| ParamsShape.TrimmedBlank | index.js:155-165 | the trimmed pieces are empty exactly when the content is blank |
| ParamsShape.ParamsWithoutTrailing | index.js:154-165 | with no `:` after the cursor, there are no parameters exactly when the content is blank; otherwise the last one is non-empty, none holds a space or `:`, and joined with spaces they are the content less its trailing spaces |
| ParamsShape.PoppedPieces | index.js:158-160 | the middle pieces before a `:` hold no space, keep any character the text lacks out, and joined with spaces give the text or the text less one trailing space |
| ParamsShape.PoppedJoin | index.js:159-160 | dropping one trailing empty piece shortens the join by at most its separator |
| ParamsShape.ParamsWithTrailing | index.js:158-162 | with a `:` at t, there are parameters; the last is the text from t+1 to the line end, and the others join back to the text before t less its last character, up to one trailing space |
| ParamsShape.ParamsAfterColon | index.js:158-162 | with the first `:` at t, the parameters are the popped pieces of the text before it less one character, then the text after it up to the line end |
| ParamsShape.TrailingAfterColon | index.js:162 | the trailing text runs from after the `:` to the content end of the whole line, which lies beyond the `:` |
| ParamsShape.ParamsMiddleOnly | index.js:148-157 | space-free, colon-free parameters written with single spaces, any trailing spaces and a terminator come back as written |
| ParamsShape.MiddleOnlyAt | index.js:148-157 | on a colon-free line whose content is the parameters joined by spaces plus trailing spaces, the parameters come back as written |
| ParamsShape.JoinDetermined | index.js:155-157 | two space-free lists ending in a non-empty piece whose joins differ only by trailing spaces are the same list |
| Layout.TagsOpenedPhase | index.js:91-115 | a tag section laid out at the start of the line is read as its raw text, and the cursor lands where the prefix may start |
| Layout.PrefixOpenedPhase | index.js:117-137 | a prefix section laid out at the cursor is read as its raw text, and the cursor lands after its spaces |
| Layout.OpenedPhases | index.js:91-137 | both opening sections laid out in order are read as laid out, and the cursor lands on the verb |
| Layout.VerbThenPhase | index.js:139-146 | a verb written at the cursor and followed by spaces or by only a terminator is read whole, and the cursor lands where the layout says |
| Layout.TrailingLaidPhase | index.js:148-166 | middle parameters and a last one written after the cursor come back as written |
| Layout.ParamsLaidPhase | index.js:148-166 | well-formed parameters written after the cursor, or none, come back as written |
| Layout.ParseOpened | index.js:82-169 | on a line with both opening sections laid out and a word at the verb position, parsing succeeds exactly when the word is a valid verb, and then gives those sections, that verb and the parameters after it |
| Layout.GateOpened | index.js:139-145 | on such a line, parsing succeeds exactly when the word passes the verb gate, and a success holds the laid-out sections and that verb |
| Layout.ParseLaidOut | index.js:82-169 | a line laid out with single spaces, a valid verb and well-formed parameters parses to exactly those sections |
| LineFormat.ParseRawLine | index.js:82-169 | a line written from space-free tag and prefix text, a valid verb and well-formed parameters parses to exactly those sections |
| LineFormat.AssembleFormatted | index.js:91-137 | parsing the tag text and prefix a well-formed record is written with gives the record's own tags and origin back |
| LineFormat.LineRoundTrip | index.js:82-169 | every well-formed record written as a line parses back to the same record |
| Rejections.CursorResetFails | index.js:114-146 | a verb read from a cursor on `@` or `:`, which is where a section without a space sends the cursor back to, never passes the gate |
| Rejections.UnterminatedTagsFail | index.js:91-145 | a line starting with `@` with no space after it fails |
| Rejections.UnterminatedPrefixFail | index.js:117-145 | a prefix with no space after it fails |
| Rejections.LeadingSpaceFails | index.js:139-145 | a line starting with a space fails: the verb search finds an empty word |
| Rejections.VerbGate | index.js:82-169 | a line without tags or prefix that starts with a space-free word fails exactly when the word is not a valid verb, and on success the verb is that word |
| Rejections.EmptyVerbAt | index.js:139-145 | from a cursor followed only by CR/LF, or at the end of the line, the verb read is the empty word |
| Rejections.EmptyVerbFails | index.js:82-146 | optional tag and prefix sections, each with its run of spaces, followed by nothing or only CR/LF: the verb is empty and the line fails |
| Rejections.GateAfterOpenings | index.js:82-146 | behind optional tag and prefix sections with any run of spaces, a space-free word at the verb position makes the parse succeed exactly when it is a valid verb, and a success holds those sections and that verb |
| Samples.FindEolPlainSamples | test/index.test.js:7-8 | `findEol('1234567')` and `findEol('1234567', 2)` are 7 |
| Samples.FindEolTerminatorSamples | test/index.test.js:9-12 | a single trailing CR or LF, and a trailing CR LF or LF CR pair, is not content |
| Samples.NonSpaceSample | test/index.test.js:18 | `nonSpacePos('123   xy', 4)` is 6 |
| Samples.FlagTagSample | test/index.test.js:33-35 | the tag text `x;y=;z=abc` gives a flag `x`, an empty `y` and `z` = `abc` (the suite expects `''` for `x`; the code gives `true`) |
| Samples.RejectedSamples | test/index.test.js:112 | `@just-tag` fails, and so does the line of spaces of test line 29 |
| Samples.JoinVerbSample | test/index.test.js:133 | on `JOIN #kesor6 \r\n` the verb is `JOIN` and the cursor lands on `#` |
| Samples.JoinParamsSample | test/index.test.js:133 | on `JOIN #kesor6 \r\n` the parameters are just `#kesor6`: the space before the terminator leaves an empty piece that is dropped |
| Samples.InteriorEmptySample | index.js:155-157 | on `a  b` the double space leaves an interior empty parameter, which the loop does not drop |

## Left out

- The type check on the input (index.js:88): the model's input is a string. A non-string fails in the source, and the model has no such value.
- The text of the `InvalidMessage` error (index.js:27-34): the model keeps only the outcome, the `InvalidMessage` case of `Result`.
- `servername` in the record type (index.js:18): the parser never sets it, so `ParsedLine` has no such field.
- The `dotPos` branch (index.js:121,131-134): both branches set the whole prefix as the source, so the model has one outcome for them. `SplitPrefix` still computes the position.
- The `if (parsed.verb)` guard (index.js:153): past the verb gate the verb is never empty, so the guard always holds.
- `RE_CMD_VALIDATION.lastIndex = pos` (index.js:143) has no effect on a regular expression without the global flag.
- The shared `lastIndex` of `RE_EOL` (index.js:36,71): it is set before every use, so `FindEol` takes the start position as a parameter and keeps no state.
- Flag tags: the code gives `true` for a tag without `=` (index.js:112), and the model gives `Flag`. The test suite expects `''` at test/index.test.js:35, 73 and 83-85. The model follows the code.
- The first `@`: the prefix is split at the first `@` found from one position before the `!` (index.js:123), not at the last `@`. The model follows the code.
- The external YAML test suite (test/github-tests.js, test/index.test.js:166-186): it is fetched over the network when the tests run, and its cases are not part of this model.
- UTF-16: JavaScript indexes strings by UTF-16 code unit, while a Dafny `string` is a sequence of Unicode scalar values. Every position, `slice` and `indexOf` is modelled per character. So `slice(pos, trailParamStart - 1)` (index.js:158) drops one whole character in the model, but in JavaScript it drops one code unit and can split a surrogate pair: on `CMD a😀:b` JavaScript gives the middle parameter `a` followed by a lone high surrogate, and the model gives `a`. Lone surrogates cannot be represented at all.
- IrcLine.ParamsPhase: its own contract says only that the list is absent or non-empty. What the list holds is stated by ParamsShape.ParamsWithoutTrailing, ParamsShape.ParamsWithTrailing, ParamsShape.ParamsAfterColon and Layout.ParamsLaidPhase.
- IrcLine.ParseIrcLine: its own contract states only the invariants of every result. That parsing fails exactly for an invalid verb is proved by Rejections.GateAfterOpenings for lines whose sections are delimited by spaces and followed by a word, and by Rejections.EmptyVerbFails when no word follows them. For lines where a section has no space after it, Rejections.UnterminatedTagsFail, Rejections.UnterminatedPrefixFail and Rejections.CursorResetFails cover it.
- Prefix.SplitPrefix: its own contract states only the shape of the result. SplitPrefixAt, SplitPrefixSourceOnly and SplitPrefixAdjacent together give its value for every first `!` and first qualifying `@`.
- Tags.ParseTags: its own contract says only that there is at least one tag. What the tags are is stated by TagsRoundTrip, ParseTagValue and EscapeCarriesOver.
