# HTTP Signatures header parser, modelled in Dafny

This project models the header scanner of the Go package `httpsignatures`
(`parser.go`). The scanner is a hand-written, byte-at-a-time state machine
that turns three kinds of header text into records:

- `Authorization: Signature keyId="…",algorithm="…",created=123,…` and
  `Signature: keyId="…",…` become a `ParsedHeader`. This follows
  draft-cavage-http-signatures: section 2.1.6 for the `headers` default and
  section 2.2 for duplicate and unknown parameters.
- `Digest: NAME=value`, in the style of RFC 3230, becomes a
  `ParsedDigestHeader`.

The model is functional. A `Parser` value is the Go `Parser` struct, and each
`parse*` method is a pure one-byte transition returning the next parser or an
error. The `parseSignature` and `parseDigest` loops are folds over the input
(`RunSignature`, `RunDigest`). The `handle*EOF` methods are the end-of-input
steps. A byte is a character no larger than U+00FF, because Go's `string(b)`
turns byte `b` into the rune U+00b. `created` and `expires` are integer seconds
(`Some(sec)` for `time.Unix(sec, 0)`, `None` for Go's zero `time.Time`).
Library calls the parser makes are modelled as well:

- `strings.Fields`, byte for byte, including the multi-byte UTF-8 white-space runes;
- `strconv.ParseInt(s, 10, 32)`, with its syntax and range errors;
- `strings.ToUpper` on ASCII names.

Files:

- `results.dfy`: `Option`, `Result`, `Outcome`.
- `bytes.dfy`: the byte type and byte classes.
- `strconv.dfy`: `ParseInt32` and `FormatInt`.
- `fields.dfy` (module `Words`): `Fields`.
- `records.dfy`: the records, the error datatype and the error messages.
- `parser.dfy`: the state machine.
- `reachability.dfy`: invariants of reachable states and what they imply.
- `keyword.dfy`: the `Authorization` keyword, described without the machine.
- `digest.dfy`: the `Digest` grammar, described without the machine, proved equal to the parser.
- `canonical.dfy`: the written form `key="value", key=123, …` of a parameter list, with any number of spaces before a name, around `=` and after a value, and what it parses to.
- `headers.dfy`: the public entry points.

Behaviour of the code that the model keeps:

- In the keyword state, and in the integer-value state, bytes outside the expected class are skipped silently. `Sig-nature` is therefore read as `Signature`, and `created=-5` stores 5. As a result, timestamps are never negative (`Reachability.HeaderInvariant`).
- A header made of the word `Signature` alone parses successfully. `Signature ` with a trailing space fails with "expected parameter". `Signature,` parses successfully too: the keyword state skips the comma (`AuthorizationKeyword.KeywordSkipsComma`).
- An `=` with no key before it starts a parameter with an empty name. That parameter is unknown, so its value is dropped.
- A `Digest` header with an empty algorithm name (`=abc`) is accepted.

## Model

| member | source | states |
|---|---|---|
| `Headers.ParseAuthorizationHeader` | parser.go:78-82 | empty input is refused with "empty header"; a success carries keyword `Signature`, a non-empty list of whitespace-free header names and non-negative 32-bit timestamps; it succeeds only if the keyword letters spell `Signature`, and any other keyword is refused with "must start from Signature keyword"; never "unexpected parser stage" |
| `Headers.ParseSignatureHeader` | parser.go:84-88 | empty input is refused; a success has an empty keyword, a non-empty list of whitespace-free header names and non-negative 32-bit timestamps; never "unexpected parser stage" |
| `Headers.ParseDigestHeader` | parser.go:90-94 | the result equals the declarative `Digest` grammar `DigestMeaning`; on success the digest is non-empty and the algorithm has no lower-case letter |
| `Headers.VerifySignatureFields` | parser.go:443-460 | fails exactly when `keyId` or `signature` is empty; `keyId` is checked first |
| `Records.Message` | parser.go:184-348 | the end-of-input errors start with "unexpected end of header, expected "; the errors about a rejected byte start with "found '", the byte, "' — " |
| `Records.MessageQuotesKey` | parser.go:369-386 | "empty value" and "duplicate param" end with the key in single quotes |
| `Parser.ParseKeyword` | parser.go:217-227 | letters accumulate; a space after a letter ends the keyword and fails unless it is `Signature`; every other byte leaves the parser unchanged |
| `Parser.ParseKey` | parser.go:229-248 | fails exactly on a byte that is not a letter, `=` or space, with "unsupported symbol in key" naming it; `=` picks the integer or quoted branch by key name; a space after the key leads to `equal` |
| `Parser.ParseAlgorithm` | parser.go:250-264 | letters, digits and `-` accumulate; `=` leads to the raw value; any other byte fails naming it |
| `Parser.ParseEqual` | parser.go:266-283 | only spaces and `=` are accepted; `=` picks the value branch by key name |
| `Parser.ParseQuote` | parser.go:285-297 | only spaces and the opening quote are accepted |
| `Parser.ParseStringValue` | parser.go:299-309 | every byte but a quote is appended; the closing quote completes the pair (store or its error) and leads to `div` |
| `Parser.ParseIntValue` | parser.go:311-329 | digits are appended; a space after digits or a comma completes the pair; every other byte, including a sign, is skipped |
| `Parser.ParseDiv` | parser.go:336-348 | only spaces and the comma are accepted; the comma leads to `param` |
| `Parser.ParseStringRawValue` | parser.go:331-334 | never fails; the byte, whatever it is, joins the value and nothing else changes (`DigestGrammar.RawValuePhase` lifts this to the rest of the header) |
| `Parser.StepSignature` | parser.go:114-136 | reports "unexpected parser stage" exactly when the flag is none of the seven `Signature` stages (`Reachability.StepNeverUnexpected` shows a reachable state never is) |
| `Parser.StepDigest` | parser.go:166-178 | reports "unexpected parser stage" exactly when the flag is neither `algorithm` nor `stringRawValue`; in `stringRawValue` it never fails and stays there |
| `Parser.RunSignature` | parser.go:104-137 | no input leaves the parser as it was; any input read from a flag outside the seven stages fails with "unexpected parser stage" (`Parser.RunSignatureConcat` and `Reachability.RunKeepsInvariant` describe the loop further) |
| `Parser.RunDigest` | parser.go:156-179 | no input leaves the parser as it was; any input read from a flag outside the two stages fails with "unexpected parser stage"; from `stringRawValue` the whole input is appended to the value (`DigestGrammar.NamePhase` covers the name) |
| `Parser.ValueFlag` | parser.go:350-356 | `created` and `expires` take the integer branch, every other key the quoted branch |
| `Parser.SetKeyword` | parser.go:358-367 | succeeds exactly when the keyword buffer is `Signature`, and then stores that keyword |
| `Parser.StoreParam` | parser.go:369-409 | an empty value fails first, then a repeated key (recognised or not); `created`/`expires` fail when the value is not a 32-bit decimal; the six known keys set exactly their own field (`headers` via `Fields`); any other key leaves the record unchanged |
| `Parser.SetKeyValue` | parser.go:369-415 | completes the pair: the store's error, or its record with the key remembered and both buffers cleared; an unknown key leaves the record unchanged |
| `Parser.IntToTime` | parser.go:417-424 | seconds are within the signed 32-bit range; on a digit string it succeeds exactly when the value is at most 2^31-1 and returns that value, else a range error |
| `Parser.SetDigest` | parser.go:426-441 | fails with "empty digest value" exactly when the value is empty; otherwise the digest is the value verbatim and the algorithm the upper-cased name |
| `Parser.HandleSignatureEof` | parser.go:184-205 | end of input succeeds in `div`, with a pending integer that stores, or in the keyword state with `Signature`; in `param` it fails with "expected parameter" when no key was begun; each mid-parameter state has its own error |
| `Parser.HandleDigestEof` | parser.go:207-215 | end of input in the name fails with "expected digest value"; in the value it completes the digest |
| `Parser.WithDefaultHeaders` | parser.go:139-143 | the header list is never empty; an empty list becomes `(created)` and nothing else changes |
| `Parser.ParseSignature` | parser.go:96-146 | empty input fails with "empty header"; a success has a non-empty header list |
| `Parser.ParseDigest` | parser.go:148-182 | empty input fails with "empty digest header" |
| `Parser.RunSignatureConcat` | parser.go:104-137 | running the loop over `a + b` is running it over `a`, then over `b` |
| `Parser.ParseSignatureAfter` | parser.go:96-146 | once a prefix is read without error, parsing the whole header is parsing the rest from the state the prefix left |
| `Bytes.ToUpper` | parser.go:434 | the result has no lower-case letter; non-lower-case bytes are unchanged; lower-case letters move down by 32 |
| `Bytes.ToUpperAll` | parser.go:434 | the result has the input's length and upper-cases it byte by byte |
| `Strconv.ParseInt32` | parser.go:420 | a success lies in the signed 32-bit range; the empty string is a syntax error |
| `Strconv.AccumulateUint32` | parser.go:420 | a success means the input is all digits and the result is their value, at most 2^32-1 |
| `Strconv.ParseUint32` | parser.go:420 | a success means the input is a non-empty digit string, and the result is its decimal value, at most 2^32-1 |
| `Strconv.ParseInt32Digits` | parser.go:417-424 | on a digit string, `ParseInt32` returns the value when it is at most 2^31-1, and a range error otherwise |
| `Strconv.ParseFormatRoundTrip` | parser.go:420 | every signed 32-bit value survives `FormatInt` followed by `ParseInt32` |
| `Words.Fields` | parser.go:394 | every field is non-empty and contains no white-space rune |
| `Words.FieldsEmptyIffBlank` | parser.go:393-394 | `Fields` returns no field exactly when the value is white space only |
| `Words.FieldsOfWordThenSpace` | parser.go:394 | a field followed by a space and more text splits into that field and the fields of the rest |
| `Words.FieldsOfJoin` | parser.go:394 | fields joined by single spaces split back into the same fields |
| `Reachability.StepKeepsInvariant` | parser.go:114-136 | each step keeps key bytes letters only, integer values digits only and belonging to `created`/`expires`, quoted values away from them, the record well-formed and the keyword field in step with the state |
| `Reachability.RunKeepsInvariant` | parser.go:104-137 | the loop keeps those invariants and never reports "unexpected parser stage" |
| `Reachability.SignatureAcceptance` | parser.go:96-205 | a signature parse succeeds exactly when the input is non-empty, every byte is accepted and the end state is `div`, an integer that stores, or the keyword `Signature` |
| `Reachability.EofAccepting` | parser.go:184-205 | at end of input, a reachable state is accepted exactly when it is accepting |
| `Reachability.SignatureTrailingComma` | parser.go:189-191 | when the bytes read so far end a complete parameter (in `div`, or in `intValue` with a pair that stores), adding a final comma makes the parse fail with "expected parameter" |
| `Reachability.SignatureRecord` | parser.go:139-143 | a successful record is well-formed, carries `Signature` exactly for `Authorization`, and its header list is `(created)` when no `headers` parameter was stored |
| `Reachability.EofRecord` | parser.go:184-205 | the end-of-input step keeps the record well-formed and the keyword as the entry point sets it |
| `AuthorizationKeyword.KeywordEnd` | parser.go:217-227 | the keyword ends at the first space preceded by a letter, or at the end of the input |
| `AuthorizationKeyword.KeywordPhase` | parser.go:217-227 | up to the keyword's end the parser stays in the keyword state holding exactly the letters read |
| `AuthorizationKeyword.KeywordOnly` | parser.go:217-227 | a header with no space after a letter is all keyword: it is accepted, with only the keyword and the `(created)` default, exactly when its letters spell `Signature`, and refused with "must start from Signature keyword" otherwise |
| `AuthorizationKeyword.KeywordSkipsComma` | parser.go:217-227 | `Signature,` is accepted as the bare keyword |
| `AuthorizationKeyword.KeywordDecides` | parser.go:217-227 | an `Authorization` parse succeeds only if the keyword letters are `Signature`; otherwise it fails with "must start from Signature keyword" |
| `DigestGrammar.NamePrefixLength` | parser.go:250-254 | the longest prefix of letters, digits and `-` |
| `DigestGrammar.NamePhase` | parser.go:250-264 | in the name, bytes accumulate up to the first other byte, which must be `=` |
| `DigestGrammar.RawValuePhase` | parser.go:331-334 | after the `=`, every byte, including further `=`, joins the value |
| `DigestGrammar.ParseDigestMeaning` | parser.go:148-182 | the parser equals the grammar: empty input, a missing `=`, a bad name byte and an empty value each give their error; otherwise the upper-cased name and the verbatim rest |
| `DigestGrammar.DigestRoundTrip` | parser.go:90-94 | `NAME=value` with a legal name and non-empty value parses back to the upper-cased name and the value |
| `Canonical.IdleSpaces` | parser.go:229-348 | spaces change nothing in `div`, `quote`, `equal`, in `param` before a key and in `intValue` before a digit |
| `Canonical.KeySpaces` | parser.go:229-248 | spaces after a non-empty key move to `equal` and otherwise change nothing |
| `Canonical.KeyPhase` | parser.go:229-283 | spaces, a name, spaces and `=` leave the name as the key and the value kind chosen by name |
| `Canonical.IntTrail` | parser.go:311-329 | spaces after an integer's digits complete the pair at the first space and lead to `div`; before any digit they change nothing |
| `Canonical.IntValuePhase` | parser.go:311-329 | spaces, digits and spaces after `=` leave the integer pending, or completed when a space followed its digits |
| `Canonical.QuotedValuePhase` | parser.go:285-309 | spaces, a quoted value and spaces after `=` complete the pair at the closing quote |
| `Canonical.ParamBytes` | parser.go:229-329 | one written parameter, with its spaces, leaves an integer pending unless a space after its digits completed it, and stores a quoted value at its closing quote |
| `Canonical.CommaAfterParam` | parser.go:311-348 | the comma after one written parameter completes it if still pending and returns to a parameter start with the pair stored |
| `Canonical.AfterComma` | parser.go:336-348 | after the comma that follows written parameters, all of them are stored and the parser is at a parameter start |
| `Canonical.RenderRun` | parser.go:104-137 | reading written parameters separated by commas stores all but a pending final integer |
| `Canonical.PendingEnd` | parser.go:184-205 | the end of input completes a pending integer |
| `Canonical.RenderParse` | parser.go:96-146 | parsing written parameters gives the stored record with the `headers` default |
| `Canonical.SignatureHeaderRoundTrip` | parser.go:84-88 | parsing the written text of a parameter list, with any spaces before names, around `=` and after values, gives exactly the record that storing the list produces |
| `Canonical.SpacedHeader` | parser.go:84-88 | `keyId="a", signature="b"` yields key id `a`, signature `b` and the header list `(created)` |
| `Canonical.AuthorizationHeaderRoundTrip` | parser.go:78-82 | `Signature ` followed by the written text gives the same record with the keyword set; with no parameter it fails with "expected parameter" |
| `Canonical.AfterKeyword` | parser.go:78-82 | behind `Signature `, the parse goes on as a signature parse from the first parameter |
| `Canonical.KeywordPrefix` | parser.go:217-227 | `Signature ` leads to the first parameter with the keyword stored |
| `Canonical.LookupNames` | parser.go:379-387 | a name has a value exactly when it is among the list's names |
| `Canonical.InterpretMeaning` | parser.go:369-409 | storing a list succeeds exactly when the names are distinct and every value is non-empty and, for timestamps, a 32-bit decimal; the record is then described field by field |
| `Canonical.ParsedMeaning` | parser.go:96-146 | a written header that parses has distinct, storable parameters and yields the record they denote, with the `headers` default |
| `Canonical.PresentField` | parser.go:369-409 | with every value storable, a name has a non-empty value exactly when the list names it |
| `Canonical.RequiredFields` | parser.go:443-460 | for a written header, the required-field check passes exactly when the list names `keyId` and `signature` |
| `Canonical.CanonicalHeaderList` | parser.go:139-143 | for a written `Signature` header that parses, the header list is `(created)` when `headers` is absent or blank, and the fields of its value otherwise |
| `Canonical.InterpretUnknown` | parser.go:389-409 | storing a new, unrecognised name with a non-empty value leaves the stored record as it was |
| `Canonical.UnknownParamIgnored` | parser.go:389-409 | appending a new unrecognised parameter with a non-empty value to a non-empty written list changes nothing in the result |
| `Canonical.InterpretDuplicate` | parser.go:379-386 | storing a name already stored, with a non-empty value, fails with "duplicate param" |
| `Canonical.DuplicateRefused` | parser.go:379-386 | repeating a stored name, recognised or not, fails with "duplicate param" |

## Left out

- Signature and digest algorithms (`rsaSha256.go`, `rsaSha512.go`, `rsaSsaPssSha512.go`, `sha256.go`): thin wrappers over Go's RSA and SHA libraries through helpers that are not part of this model. Hashing and signing cannot be modelled meaningfully here.
- The `Digest` facade, the signature orchestrator and signing-string construction: not part of this model.
- Reuse of one `Parser` across calls: the Go entry points reset only `flag`. Every parse here starts from a fresh `NewParser`.
- `io.Reader` plumbing: reading one byte at a time becomes a fold over a sequence.
- `ParserError.Error()` formatting: the `ParserError: ` prefix and the text of the wrapped `strconv` error are not rendered. `Records.Message` gives the `Message` field, and the `strconv` error kind is kept in the error value.
- `VerifySignatureFields`: it is modelled over the returned record. The Go method reads the parser's own record, which after a failed parse still holds the fields stored before the failure.
- `ToUpper` is modelled for ASCII only. Every byte the `Digest` name can hold is ASCII, so this is exact for the parser.
- The written form (`canonical.dfy`) covers any spaces before a name, around `=` and after a value, and an empty name. Bytes the integer state skips (a sign, a letter, a quote) and the bytes the keyword state skips are not part of it. For those headers only acceptance (`Reachability.SignatureAcceptance`), the record invariant (`Reachability.SignatureRecord`) and the keyword (`AuthorizationKeyword.KeywordDecides`) are stated.
- `Canonical.CanonicalHeaderList` is stated for written headers only. A header with bytes the integer state skips, such as `headers="a b",created=-5`, or with bytes the keyword state skips, is not written form, so its header list is not described by this lemma; such input cannot be produced by `RenderAll`, and describing the skipped bytes would need a second grammar.
