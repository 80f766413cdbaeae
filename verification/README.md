# strToIdentifier, modelled in Dafny

The SDK's one piece of local logic is the label normaliser exported by
`app/util/strToIdentifier.js`. It turns an arbitrary label into a snake-case
identifier:

- every ASCII letter is kept, lower-cased;
- each run of the separators `_`, space and `-` becomes one `_`;
- every other character (digits, punctuation, anything outside ASCII) is dropped;
- finally one trailing `_` and then one leading `_` are removed.

The model has four modules:

- `CharClass` (CharClass.dfy): the character classes the loop tests and ASCII lower-casing.
- `Identifier` (Identifier.dfy): one loop iteration (`Step`), the loop as a
  fold over the input (`Scan`) with its invariants, the two trims, the exported function
  `StrToIdentifier`, and `StrToIdentifierLoop`, the loop written imperatively
  as in the source and proved equal to the function.
- `IdentifierLaws` (IdentifierLaws.dfy): laws relating several calls, such as
  which edits of the input leave the result alone, when the result is empty,
  the fixed points, and idempotence.
- `WordSpec` (WordSpec.dfy): an independent, declarative definition. Cut the
  input at separators, keep the lower-cased letters of each piece, drop the
  empty pieces, and join the rest with `_`. It is proved equal to the
  normaliser. `Words` undoes `Join` on any list of words, and `Join` undoes
  `Words` on any identifier.

The separator test on line 6 of the source reads
`str[i] === '_' || str[i] === ' ' || || str[i] === '-'`. That is a JavaScript
syntax error, so the file does not parse as written. The model assumes the
evident intent: the separators are exactly `_`, space and `-`. A comment on
`CharClass.IsSeparator` records this.

JavaScript indexes strings by UTF-16 code units, while a Dafny `char` is a
Unicode scalar value. The two agree here, because only ASCII characters are
ever kept and any other unit or scalar is dropped.

## Model

| member | source | states |
|---|---|---|
| CharClass.IsSeparator | app/util/strToIdentifier.js:6 | the separators are `_`, space and `-` (the evident intent of line 6); the contract states that each of them is ASCII and none is an ASCII letter, so the order of the letter test and the separator test does not matter |
| CharClass.ToLower | app/util/strToIdentifier.js:5 | `toLowerCase()` on an ASCII letter: a lower-case letter is kept, and an upper-case letter is shifted by `'a' - 'A'`, so the result is always lower-case |
| Identifier.Step | app/util/strToIdentifier.js:4-8 | one iteration extends `result` by at most one character: a letter appends its lower-case form, a separator appends `_` exactly when `result` is empty or does not end in `_`, and any other character leaves `result` unchanged |
| Identifier.DropTrailingSeparator | app/util/strToIdentifier.js:10-12 | the result is a prefix of the input and one character shorter exactly when the input ends in `_` |
| Identifier.DropLeadingSeparator | app/util/strToIdentifier.js:13-14 | the result is a suffix of the input and one character shorter exactly when the input starts with `_` |
| Identifier.Scan | app/util/strToIdentifier.js:2-9 | each input character appends at most one character, so `result` after the loop is no longer than the input |
| Identifier.ScanCollapsed | app/util/strToIdentifier.js:3-9 | after the loop, `result` holds only lower-case letters and `_`, and never two `_` in a row, because `_` is appended only when the last character is not already `_` |
| Identifier.ScanKeepsLetters | app/util/strToIdentifier.js:3-9 | after the loop, the letters of `result` are exactly the input's ASCII letters, lower-cased and in order: none lost, added or reordered |
| Identifier.TrimmedIsIdentifier | app/util/strToIdentifier.js:10-15 | trimming one trailing and then one leading `_` is enough: once runs are collapsed, the result has no `_` at either end and keeps every letter |
| Identifier.StrToIdentifier | app/util/strToIdentifier.js:1-18 | the result is an identifier (lower-case letters and single `_`, no `_` at either end), holds exactly the input's ASCII letters lower-cased in order, and is no longer than the input |
| Identifier.StrToIdentifierLoop | app/util/strToIdentifier.js:1-18 | the imperative loop with its two trims returns exactly the functional result |
| IdentifierLaws.OtherCharacterIgnored | app/util/strToIdentifier.js:4-8 | deleting a character that is neither an ASCII letter nor a separator, anywhere in the input, leaves the result unchanged |
| IdentifierLaws.SeparatorRunCollapses | app/util/strToIdentifier.js:6-8 | a separator directly after another separator leaves the result unchanged, so a run counts once |
| IdentifierLaws.SeparatorsInterchangeable | app/util/strToIdentifier.js:6-7 | replacing one of `_`, space, `-` by another leaves the result unchanged |
| IdentifierLaws.CaseInsensitive | app/util/strToIdentifier.js:4-5 | replacing a letter by its lower-case form leaves the result unchanged |
| IdentifierLaws.EmptyIffNoLetters | app/util/strToIdentifier.js:3-17 | the result is empty if and only if the input has no ASCII letter (the empty string, separators only, digits only) |
| IdentifierLaws.IdentifierFixedPoint | app/util/strToIdentifier.js:1-18 | every identifier is returned unchanged |
| IdentifierLaws.FixedPointIffIdentifier | app/util/strToIdentifier.js:1-18 | a string is returned unchanged if and only if it is an identifier |
| IdentifierLaws.Idempotent | app/util/strToIdentifier.js:1-18 | normalising the result again returns the result |
| WordSpec.ScanIsFramed | app/util/strToIdentifier.js:2-9 | before trimming, `result` is the input's words joined by `_`, with one extra `_` in front when a separator precedes the first letter and one behind when a separator follows the last letter |
| WordSpec.JoinWords | app/util/strToIdentifier.js:1-18 | the result equals the independent definition: the input's separator-delimited, letter-bearing pieces, lower-cased and joined with `_` |
| WordSpec.WordsOfJoin | app/util/strToIdentifier.js:1-18 | cutting words joined with `_` at the separators gives the same words back |
| WordSpec.JoinOfWords | app/util/strToIdentifier.js:1-18 | joining the words of an identifier with `_` gives the identifier back |
| WordSpec.ResultHasInputWords | app/util/strToIdentifier.js:1-18 | the result has exactly the words of the input, in order |

## Left out

- The entity controllers (customer, order, menu item, modifier, flash sale, survey): each builds a constant GraphQL document, awaits a network adaptor whose code is not part of this model, and resolves one field of the response, the whole response, or nothing. There is no local logic to state.
- The verification controller: HTTP calls through a client library, and a choice between two endpoints. Its one decision, comparing the reply to the literal `"yes"`, sits inside asynchronous I/O.
- `app/App.js`: object wiring, fixed endpoint URLs and a mutable authentication token. This is configuration and shared state, not behaviour.
- Promises, asynchronous ordering, transport errors and token propagation across concurrent calls: concurrency and foreign-library behaviour are outside this model.
- Arguments that are not strings: with `undefined` or `null`, reading `str.length` on line 3 throws a TypeError. The model takes a string, so it cannot express this, and no caller in the core depends on it.
- Behaviour of the file exactly as written: it does not parse (line 6), so only the evident intent is modelled.
- CharClass.IsSeparator: the contract states only that separators are ASCII non-letters; the exact set is the definition itself, because line 6 does not parse and the set is the assumed intent rather than a promise of the source.
