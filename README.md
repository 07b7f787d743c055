# Tokenizing text box — Dafny model

A model of the tokenizer at the heart of `TokenizingTextBox`, an Avalonia
list box that sits beside a text box and turns what is typed into a list of
tokens (e-mail addresses, say). Each text-input event reads the text box's
text; when the text holds the delimiter (a space), the text is split on it with
empty pieces dropped, the pieces are appended to the list box's items, and the
text box keeps only the unfinished last word, or is cleared when the text
ended with the delimiter.

Files:

- `wrappers.dfy` — `Option`, with `None` standing for a .NET `null`.
- `string_split.dfy` — module `StringSplit`: `String.Split` on one character,
  with (`SplitNonEmpty`) and without (`Fragments`) `RemoveEmptyEntries`, and
  what splitting preserves: the join round trips, the characters kept, the
  shape of every token.
- `tokenizing_text_box.dfy` — module `Controls`: the specification of one
  text-input event as a function (`TextChangedStep`) with its lemmas, and the
  class `TokenizingTextBox` whose fields are the items, the text and the caret,
  with methods that update them as the control does, each with a contract
  that gives the new items, text and caret; `TextChanged` is proved against
  that specification.

Behaviour kept from the code:

- The delimiter is a field of the class with default `' '`. The control
  hard-codes the one-character string `" "` and compares only its first
  character against the text's last one, so the model takes a single `char`.
  The guard `!string.IsNullOrEmpty(" ")` is always true of a one-character
  delimiter and has no counterpart.
- A null text leaves everything unchanged. So does a text without the
  delimiter.
- Items are rebuilt as a fresh list of the old items followed by the new one,
  and an empty token is never appended.
- Assigning the text box's `Text` clamps its caret to the new text's length.
  This is the Avalonia `TextBox` setter, which is not part of this repository;
  `SetText` models it. This is why the caret sits at the end of the (empty)
  text after a commit that ends with the delimiter, although the handler sets
  the caret only in the other branch.
- `AddToken()` on a null text clears the text box and then fails with a
  `NullReferenceException`, because `AddToken(null)` reads `token.Length`.
  The overload is private and nothing in the control calls it.

Three further facts about the handler: the delimiter is a fixed space
(TokenizingTextBox.cs:76-80), the handler reads the whole current text of the
text box (:72), and it never marks the input event as handled.

## Model

| member | source | states |
|---|---|---|
| `StringSplit.Fragments` | AvaloniaTokenizingTextBox/Controls/TokenizingTextBox.cs:80 | Splitting always yields at least one piece, and no piece holds the delimiter |
| `StringSplit.NonEmpty` | AvaloniaTokenizingTextBox/Controls/TokenizingTextBox.cs:80 | Removing empty entries keeps only non-empty strings, each taken from the input, and never lengthens the list |
| `StringSplit.SplitNonEmpty` | AvaloniaTokenizingTextBox/Controls/TokenizingTextBox.cs:80 | Every token of a split with `RemoveEmptyEntries` is non-empty and free of the delimiter |
| `StringSplit.JoinFragments` | AvaloniaTokenizingTextBox/Controls/TokenizingTextBox.cs:80 | Joining the split pieces with the delimiter gives back the original text |
| `StringSplit.FragmentsOfJoin` | AvaloniaTokenizingTextBox/Controls/TokenizingTextBox.cs:80 | Delimiter-free pieces joined with the delimiter split back into exactly those pieces |
| `StringSplit.SplitJoin` | AvaloniaTokenizingTextBox/Controls/TokenizingTextBox.cs:80 | Round trip: non-empty, delimiter-free tokens joined with the delimiter split with `RemoveEmptyEntries` into themselves |
| `StringSplit.SplitWithoutDelimiter` | AvaloniaTokenizingTextBox/Controls/TokenizingTextBox.cs:76-80 | A text without the delimiter splits into itself alone, or into nothing when empty |
| `StringSplit.SplitHasToken` | AvaloniaTokenizingTextBox/Controls/TokenizingTextBox.cs:78-93 | A text with any non-delimiter character splits into at least one token, so `tokens[tokens.Length - 1]` is in range when the text does not end with the delimiter |
| `StringSplit.NonEmptyAppend` | AvaloniaTokenizingTextBox/Controls/TokenizingTextBox.cs:80 | Removing empty entries works piece by piece, so every non-empty entry is kept, in order, and only empty ones are dropped |
| `StringSplit.NonEmptyKeeps` | AvaloniaTokenizingTextBox/Controls/TokenizingTextBox.cs:80 | A list without empty entries is left as it is |
| `StringSplit.FragmentsAtDelimiter` | AvaloniaTokenizingTextBox/Controls/TokenizingTextBox.cs:80 | Splitting without options around one delimiter gives the pieces before it followed by the pieces after it |
| `StringSplit.SplitAtDelimiter` | AvaloniaTokenizingTextBox/Controls/TokenizingTextBox.cs:80 | The tokens of a text are the tokens before any delimiter followed by the tokens after it; with `SplitWithoutDelimiter` this fixes the tokens of every text |
| `StringSplit.RepeatedDelimiterCollapses` | AvaloniaTokenizingTextBox/Controls/TokenizingTextBox.cs:80 | Two consecutive delimiters split exactly as one: no empty token arises between them |
| `StringSplit.SplitKeepsCharacters` | AvaloniaTokenizingTextBox/Controls/TokenizingTextBox.cs:80 | The tokens, concatenated, are the text with every delimiter removed: only delimiters are dropped |
| `Controls.TextChangedStep` | AvaloniaTokenizingTextBox/Controls/TokenizingTextBox.cs:72-95 | An event changes nothing exactly when the text is null or lacks the delimiter; otherwise every committed token is non-empty and delimiter-free, the text left behind holds no delimiter, and it is empty exactly when the text ended with the delimiter |
| `Controls.StepLosesNothing` | AvaloniaTokenizingTextBox/Controls/TokenizingTextBox.cs:80-95 | No input is lost: the committed tokens followed by the tokens of the remaining text are the tokens of the original text, in order |
| `Controls.StepSettles` | AvaloniaTokenizingTextBox/Controls/TokenizingTextBox.cs:76-95 | A second event on the text a commit leaves behind commits nothing (a corollary of `TextChangedStep`'s contract) |
| `Controls.TrailingSpaceExample` | AvaloniaTokenizingTextBox/Controls/TokenizingTextBox.cs:76-89 | `"ab c "` commits `ab` and `c` and clears the text |
| `Controls.KeepLastWordExample` | AvaloniaTokenizingTextBox/Controls/TokenizingTextBox.cs:76-95 | `" a  b"` commits only `a` (no empty token from the double space) and keeps `b` as the text |
| `Controls.TokenizingTextBox.SetText` | AvaloniaTokenizingTextBox/Controls/TokenizingTextBox.cs:89-94 | Assigning the text keeps the items and keeps the caret within the new text |
| `Controls.TokenizingTextBox.AddToken` | AvaloniaTokenizingTextBox/Controls/TokenizingTextBox.cs:107-123 | The new items are the old items followed by the token when it is non-empty, and the old items unchanged when it is empty; text and caret untouched |
| `Controls.TokenizingTextBox.AddTokenFromText` | AvaloniaTokenizingTextBox/Controls/TokenizingTextBox.cs:131-136 | The text is always cleared; the old text is appended exactly when it was non-empty; a null text raises a null-reference failure and adds nothing |
| `Controls.TokenizingTextBox.TextChanged` | AvaloniaTokenizingTextBox/Controls/TokenizingTextBox.cs:70-97 | A null or delimiter-free text leaves items, text and caret unchanged; otherwise the new items are the old items followed by the committed tokens in split order, the text is the remainder and the caret is at its end, as `TextChangedStep` says |

## Left out

- The wrap-panel layout (`TokenizingWrapPanel.cs`): arithmetic on `double` driving framework measure and arrange calls.
- Template and event wiring (`OnApplyTemplate`, `OnKeyDown`, the empty `TextBox_KeyDown`, the debug output in `ItemsChanged`, the selection-mode override, the item container generator, the unused `InputText` property): framework plumbing with no logic.
- A handler call before the template has been applied, when the text box reference is still null: framework lifecycle, not modelled.
- Items that are not strings (the `(string)item` cast could fail): the model's items are strings.
- Lengths and the caret count characters (Unicode scalar values), not the UTF-16 code units that .NET's `Length` and `CaretIndex` count: for text ending in a character outside the Basic Multilingual Plane the model's caret is smaller than the control's, and lone surrogates cannot be represented.
- The timing of the event: the handler is registered on the tunnelling phase of the text-input event, so it sees the text before the typed character is inserted; the model takes the text as the handler reads it.
- The view model, token item and token text box controls, the sample application and the tests: glue and framework metadata with no algorithm.
- Suggestion filtering, cancellation of searches and the focus and selection state machine: the control's code does not implement them.
