# convert_alpha.py colour-line rewriter, in Dafny

`convert_alpha.py` rewrites the background colour line of a template. It
finds every declaration matching

    (@define-color background\s+)(\{\{background\}\}|#[0-9a-fA-F]{6})(;)

and replaces the colour with `rgba(r, g, b, 0.7)`. This model covers the
part of the program that computes the new text:

- `hex_to_rgba` (module `HexColor`). It strips every leading `#`, requires six
  characters, reads three base-16 channels and renders the `rgba(...)` text.
  `Decimal` models the decimal rendering of the channels.
- The `replacement` callback and the global `pattern.sub` of `process_file`
  (module `ColorLine`).
  - `MatchAt` is the pattern tried at one position.
  - `Matches` is its answer at every position.
  - `Sub` is the left-to-right search of `re.sub`. It copies text where the
    pattern does not match, hands each match to a callback, and resumes after
    the match.
  - `Replacement` is the callback.
  - `ProcessContent` is the whole substitution.
- `Wrappers` holds `Option` and `Result`. They stand in for `None` and for
  raised exceptions.

The source's comments and the code disagree about the placeholder. The
comments at convert_alpha.py:31-34 say a `{{background}}` colour is replaced
by transparent black or left as it is. The code does neither. On that branch
`rgba_color` is never assigned, so line 43 raises `UnboundLocalError`. The
error propagates out of `pattern.sub`, and the file is never written. The
model follows the code: `Replacement` returns `Err(UnboundColor)`, and
`ProcessContent` fails whenever the text holds such a declaration.

## Model

| member | source | states |
|---|---|---|
| Decimal.Show | convert_alpha.py:15 | the text `{r}` of a channel: non-empty, digits only, with a leading `0` exactly for zero |
| Decimal.ValueOfShow | convert_alpha.py:15 | reading the decimal text back gives the number, so no information is lost |
| Decimal.ShowInjective | convert_alpha.py:15 | distinct channel values print differently |
| HexColor.StripHashes | convert_alpha.py:7 | `lstrip('#')`: the result is a suffix of the input, does not start with `#`, and everything removed is `#` |
| HexColor.StripHashesOfPadded | convert_alpha.py:7 | any number of leading `#` is removed, and nothing after them |
| HexColor.ParseChannel | convert_alpha.py:10-12 | on two characters of text, the model's `int(pair, 16)` succeeds exactly when both are ASCII hex digits; the value is below 256 and its two-digit encoding is the pair, up to case |
| HexColor.ParseEncodeChannel | convert_alpha.py:10-12 | every channel value is read back from its own two hex digits |
| HexColor.ParseRgb | convert_alpha.py:10-12 | on six characters of text, the model's parse of the three slices [0:2), [2:4), [4:6) succeeds exactly when all six are ASCII hex digits; the channels are below 256 and re-encode to the input, up to case |
| HexColor.ParseEncodeRgb | convert_alpha.py:10-12 | the six hex digits of a colour are read back as that colour |
| HexColor.HexToRgba | convert_alpha.py:5-15 | raises the length error exactly when the stripped text is not six characters long, and succeeds exactly when it is six hex digits |
| HexColor.HexToRgbaOfEncoded | convert_alpha.py:7-15 | any number of `#` followed by the hex digits of a colour converts to `rgba(r, g, b, alpha)` of exactly that colour |
| HexColor.HexToRgbaChannels | convert_alpha.py:10-15 | a successful conversion prints the channels parsed from the stripped text, and those re-encode to it up to case |
| HexColor.RgbaText | convert_alpha.py:15 | the f-string `rgba({r}, {g}, {b}, {alpha})`: it starts with `rgba(`, ends with the alpha text and `)`, and is at least 15 characters longer than the alpha text |
| HexColor.RgbaTextInjective | convert_alpha.py:15 | two colours with the same rgba text are the same colour |
| HexColor.HexToRgbaExample | convert_alpha.py:15 | `#112233` converts to `rgba(17, 34, 51, 0.7)` |
| ColorLine.SpaceRun | convert_alpha.py:24 | `\s+` is taken as the maximal whitespace run: every character in it is whitespace and the next one is not |
| ColorLine.ColorAt | convert_alpha.py:24 | group 2 found at a position is the placeholder or `#` with six hex digits, and lies in the text there |
| ColorLine.MatchAt | convert_alpha.py:24 | a match found at a position is well formed (directive, one or more spaces, colour token) and is the text at that position followed by `;` |
| ColorLine.MatchAtFinds | convert_alpha.py:24 | every well-formed match present at a position is the one MatchAt returns there |
| ColorLine.MatchAtIsRegexMatch | convert_alpha.py:24 | MatchAt returns a match exactly when that match is well formed and present at the position |
| ColorLine.NoAtInsideMatch | convert_alpha.py:24 | only the first character of a match is `@` |
| ColorLine.MatchesDoNotOverlap | convert_alpha.py:24 | a match never starts inside an earlier match |
| ColorLine.Matches | convert_alpha.py:24 | the table of the pattern's answers holds only well-formed matches, each present at its position and ending inside the text, and no two of them overlap |
| ColorLine.Replacement | convert_alpha.py:26-43 | the callback fails exactly on the placeholder; otherwise its text starts with the match's prefix and ends with `;` |
| ColorLine.HexMatchConverts | convert_alpha.py:27-43 | for a hex match the conversion succeeds, so the fallback is never taken; the text is the prefix with its whitespace, then the rgba text of the parsed channels, then `;`, and it is longer than the match |
| ColorLine.ReplacementLengthens | convert_alpha.py:26-43 | the callback's text is longer than every match it accepts |
| ColorLine.Sub | convert_alpha.py:45 | if the substitution fails, the callback failed on some match in the text |
| ColorLine.SubCopiesGap | convert_alpha.py:45 | text in which the pattern does not match is copied verbatim and in order |
| ColorLine.SubWithoutMatches | convert_alpha.py:45 | a text with no match comes back unchanged |
| ColorLine.SubReplacesNextMatch | convert_alpha.py:45 | the output is the text up to the next match, then the callback's text, then the result of the search resumed after the match |
| ColorLine.SubMeetsFailure | convert_alpha.py:45 | the search meets every match: if the callback fails on any match, the substitution fails |
| ColorLine.SubFailsIff | convert_alpha.py:45 | the substitution fails exactly when the callback fails on some match |
| ColorLine.SubNotShorter | convert_alpha.py:43-45 | when the callback lengthens matches, a successful substitution is never shorter than the input |
| ColorLine.SubLonger | convert_alpha.py:43-45 | when the callback lengthens matches, a successful substitution of a text with a match is longer than the input |
| ColorLine.SubstitutionOutcome | convert_alpha.py:26-45 | the substitution with this callback fails only where a `{{background}}` declaration matches, and a text it produces is never shorter than the input |
| ColorLine.ProcessContent | convert_alpha.py:45 | `pattern.sub(replacement, content)`: a failure comes from a matched `{{background}}` declaration, and a new text is never shorter than the content (see also UnchangedIffNoDeclaration, FailsIffPlaceholder, ProcessContentExample) |
| ColorLine.NoDeclarationUnchanged | convert_alpha.py:24-45 | a content in which the pattern matches nowhere comes back unchanged |
| ColorLine.DeclarationChanges | convert_alpha.py:24-45 | a content in which the pattern matches somewhere does not come back unchanged: it is rewritten or the substitution fails |
| ColorLine.UnchangedIffNoDeclaration | convert_alpha.py:24-45 | `pattern.sub(replacement, content)` returns the content unchanged exactly when the pattern matches nowhere |
| ColorLine.FailsIffPlaceholder | convert_alpha.py:33-45 | the substitution fails, and no text is produced, exactly when some `{{background}}` declaration matches |
| ColorLine.SubOfOneMatch | convert_alpha.py:45 | a text that is one whole match becomes the callback's text |
| ColorLine.ProcessContentExample | convert_alpha.py:24-45 | `@define-color background #112233;` becomes `@define-color background rgba(17, 34, 51, 0.7);` |
| ColorLine.PlaceholderExample | convert_alpha.py:33-45 | `@define-color background {{background}};` makes the substitution fail |

## Left out

- Reading and writing the file (convert_alpha.py:18-19, 47-48) is I/O. `ProcessContent` returns the new text, or the failure that stops the write.
- The `print` diagnostics (convert_alpha.py:13-14, 35, 40, 50) only report and do not change any result.
- Argument checking and `sys.exit` (convert_alpha.py:52-58) are a process wrapper.
- `alpha` is a float in the source. The model carries it as the text Python prints for it, and `ColorLine.Alpha` is `"0.7"`.
- HexColor.HexToRgba: does not reproduce the leniency of `int(..., 16)`, which accepts a sign, surrounding whitespace, underscores and non-ASCII digits. Such a slice is a `NotHex` error here. Only a direct call with non-hex text can reach this; the pattern never produces one.
- HexColor.ParseChannel: reads only ASCII hex digits. `int(pair, 16)` also accepts a sign, surrounding whitespace and non-ASCII digits (`"-1"`, `" f"`, `"+f"`), and those are a failure here. The pattern only hands over ASCII hex digits, so the substitution is unaffected.
- HexColor.ParseRgb: fails on any slice that is not two ASCII hex digits, for the same reason as `HexColor.ParseChannel`.
- ColorLine.SpaceRun: `\s` is the six ASCII whitespace characters (space, tab, line feed, carriage return, vertical tab, form feed), not Python's full Unicode set.
- Text encoding and decoding of the file are not modelled. Strings are sequences of characters.
