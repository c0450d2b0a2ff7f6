# php-serialize `unserialize`, modelled in Dafny

This project models the decoder for PHP's native `serialize()` text format
from `src/unserialize.ts`. It covers what the decoder reads and in what
order:

- one input with a single read position that every step moves forward;
- eight record kinds selected by a type marker: `N` null, `i` integer,
  `d` float, `b` boolean, `s` string, `a` container, `O` property-bag
  object, `C` custom-payload object;
- the key/value pairs of `a:` and `O:` records;
- the list-or-map decision for containers;
- the visibility prefixes of object property keys;
- class resolution against a caller-supplied scope, in strict and lenient
  mode;
- the option defaults of the entry point.

The model has three layers:

- **Reference layer.** `Scan` and `Grammar` describe every read as a pure
  function of the input and a position. Each function returns a `Result`,
  which holds either the value read and the position after it, or an error.
  The error takes the place of the exception the source throws.
- **Imperative layer.** This layer follows the source's form.
  - `Stream.Cursor` is a class holding the input and a mutable index.
  - `Decoder` holds recursive methods that move the cursor. Among them is
    the counted loop of `unserializePairs`.
  - `Containers.BuildContainer` and `Classes.AssignProperties` are the
    `forEach` loops that fill results.
  - Every method is proved to compute exactly its reference function: the
    same value or error and, on success, the cursor left at the same
    position.
- **Properties.** The format's rules are lemmas about the reference layer:
  - `GrammarFacts`: pair count and order, separators, and what each record
    kind decodes to;
  - `Containers` and `Classes`: the list-or-map rule and prefix stripping;
  - `Encoding`: the writer's spelling of null, integers, booleans, strings
    and nested lists, and the round trip `Decode(Encode(v)) == v` in either
    mode and under any scope;
  - `Samples`: a worked byte-length example.

`./parser` and `./helpers` are not part of this model. The cursor
operations are modelled from the way `src/unserialize.ts` calls them:

- `getType` reads a marker and its separator (`N;` or `x:`).
- `getLength` reads the digits up to the next `:`.
- `getByLength(open, close, k)` reads a length, then `:` and `open`, then
  runs `k`, then expects `close`.

Dafny methods cannot take method callbacks, so `getByLength` is split in
two:

- `OpenByLength` reads the length and the opening delimiter.
- `ReadByLength` handles the case where the callback is `readAhead(length)`.

Where the callback is `unserializePairs`, the array and object branches
call `OpenByLength`, then the pair loop, then check for the closing `}`.

## Notes on the source

- Default options: when the options argument is omitted, it defaults to
  `{ strict: false }` (src/unserialize.ts:153). The source's own FIXME
  (src/unserialize.ts:151-152) questions that default. Options that are
  given without `strict` become strict (src/unserialize.ts:156-158).
  `Decoder.ResolveOptions` models both rules as written.
- `C:` placeholder: for a class not in scope, the source returns the
  placeholder from `getClassReference` as it is. The payload is read but
  not attached, and no hook is called (src/unserialize.ts:137-143).
  `Classes.CustomValue` models that.

## Model

| member | source | states |
|---|---|---|
| Decoder.UnserializeItem | src/unserialize.ts:42-146 | The decoded value or error, and the cursor's new position, are exactly those of `Grammar.DecodeItem` at the old position: the marker, then the branch for its kind. |
| Decoder.UnserializeNumber | src/unserialize.ts:47-60 | The literal up to the next `;` is read, with the `;` left unread. An `i:` literal gives the integer it spells. A float literal, or a literal that is not an integer, is an error. |
| Decoder.UnserializeString | src/unserialize.ts:77-101 | It reads the declared length, `:"`, the text up to the first `"`, and that quote. A UTF-8 length mismatch fails only in strict mode. The result equals `Grammar.DecodeString`. |
| Decoder.UnserializeArray | src/unserialize.ts:103-112 | It reads the count and `{`, exactly that many pairs, and `}`. The container is built from the pairs. The result equals `Grammar.DecodeArray`. |
| Decoder.UnserializeObject | src/unserialize.ts:113-133 | It reads the class name, `:`, the pairs and `}`. Then the class is resolved and the prefix-stripped properties are assigned. The result equals `Grammar.DecodeObject`. |
| Decoder.UnserializeCustom | src/unserialize.ts:134-144 | It reads the class name, `:` and the raw payload. Then the class is resolved and the hook rule is applied. The result equals `Grammar.DecodeCustom`. |
| Decoder.UnserializePairs | src/unserialize.ts:23-40 | The counted loop produces the same pairs, in the same order and with the same end position or first error, as `Grammar.DecodePairs` for the given count. |
| Decoder.UnserializePair | src/unserialize.ts:31-37 | It reads a key, a required `;` and a value, then consumes a following `;` only if one is next. The result equals `Grammar.DecodePair`. |
| Decoder.ResolveOptions | src/unserialize.ts:153-161 | Omitted options mean non-strict. Given options without `strict` become strict, and a given `strict` is kept. The encoding defaults to `utf8`. |
| Decoder.Unserialize | src/unserialize.ts:148-164 | The scope defaults to empty. A fresh cursor at position 0 decodes one item with the resolved options. |
| Stream.Cursor.constructor | src/unserialize.ts:162 | The cursor holds the whole input and starts at position 0. |
| Stream.Cursor.PeekAhead | src/unserialize.ts:34 | It returns up to `n` characters from the position, fewer at the end of the input, and does not move the cursor. |
| Stream.Cursor.Advance | src/unserialize.ts:35 | The position moves forward by exactly `n`. |
| Stream.Cursor.ReadAhead | src/unserialize.ts:62 | It consumes exactly `n` characters, or fails with `UnexpectedEnd` without moving when fewer remain. |
| Stream.Cursor.ReadUntil | src/unserialize.ts:81 | It consumes everything before the next delimiter and stops on it; with no delimiter it fails in place. The result equals `Scan.ReadUntil`. |
| Stream.Cursor.SeekExpected | src/unserialize.ts:32 | It consumes the literal when the input continues with it, and otherwise fails in place. |
| Stream.Cursor.GetType | src/unserialize.ts:43 | It reads a known marker character and its required separator, or fails. The result equals `Scan.GetType`. |
| Stream.Cursor.GetLength | src/unserialize.ts:77 | It reads the leading decimal digits of the text up to the next `:` and stops on the `:`. The result equals `Scan.GetLength`. |
| Stream.Cursor.OpenByLength | src/unserialize.ts:104 | It reads a length, then `:` and the opening delimiter. The result equals `Scan.OpenByLength`. |
| Stream.Cursor.ReadByLength | src/unserialize.ts:114 | It reads a length, `:` and the opening delimiter, exactly that many characters, then the closing delimiter. |
| Scan.Peek | src/unserialize.ts:34 | The peeked text is the input from the position, of length `min(n, remaining)`. |
| Scan.PeekIs | src/unserialize.ts:34 | Peeking one character equals `c` exactly when the next character exists and is `c`. |
| Scan.ReadAhead | src/unserialize.ts:62 | It succeeds exactly when `n` characters remain. It then returns those characters and the position `n` further on; otherwise it returns `UnexpectedEnd`. |
| Scan.ReadUntilFinds | src/unserialize.ts:81 | `readUntil` succeeds exactly when the delimiter occurs later in the input. It stops on the first occurrence, so the text read never holds the delimiter. |
| Scan.SeekExpected | src/unserialize.ts:32 | It succeeds exactly when the input continues with the literal, and then moves past it. Otherwise the error names the literal and the position. |
| Scan.GetType | src/unserialize.ts:43 | It succeeds exactly when a known marker is followed by its separator, and then moves two characters on. A marker outside `N i d b s a O C` gives `UnknownType`. |
| Scan.GetLengthShape | src/unserialize.ts:77 | A length read stops on the first `:` after the position, and starts with a digit. |
| Scan.ParseShowInt | src/unserialize.ts:49-54 | The decimal spelling of every integer, negative ones included, parses back to that integer. |
| Grammar.ScanStringShape | src/unserialize.ts:77-83 | A string's text is what lies between `:"` and the first `"` after it, and it holds no `"`. The declared length ends at the first `:`. |
| Grammar.CheckLength | src/unserialize.ts:85-101 | A mismatch between the declared length and the text's UTF-8 length is an error exactly in strict mode. Otherwise the result is the text unchanged. |
| Grammar.DecodeFloat | src/unserialize.ts:47-56 | A `d:` record never yields a value in this model. |
| Grammar.ObjectOf | src/unserialize.ts:116-132 | It succeeds exactly when the class is in scope or the mode is lenient, and every key is a string. The result is a real instance exactly when the class is in scope, and its properties are `PropsOf` the pairs. |
| Grammar.CustomOf | src/unserialize.ts:138-143 | It succeeds exactly when the class is in scope and has the hook, or is missing in lenient mode. Only a real instance receives the payload. The errors are `MissingUnserializeHook` and `ClassNotFound`. |
| GrammarFacts.PairsCount | src/unserialize.ts:29-39 | A successful read of a declared count `n` yields exactly `n` pairs. |
| GrammarFacts.PairsSplit | src/unserialize.ts:30-38 | Reading `m + k` pairs is reading `m` pairs, then `k` more from where those stopped, kept in that order. |
| GrammarFacts.PairsHead | src/unserialize.ts:31-37 | The first pair of a successful read is the pair read at the start. |
| GrammarFacts.PairsInOrder | src/unserialize.ts:29-39 | The `i`-th pair returned is the pair that starts where the first `i` pairs end, so arrival order is kept. |
| GrammarFacts.PairRead | src/unserialize.ts:31-37 | A key, a `;` and a value make a pair. A `;` right after the value is consumed, and its absence is no error. |
| GrammarFacts.KeySeparatorRequired | src/unserialize.ts:32 | A key not followed by `;` fails the pair with `UnexpectedToken(";")` at the key's end. |
| GrammarFacts.PairValueFails | src/unserialize.ts:33 | A value that fails after a key and its `;` fails the pair with the same error. |
| GrammarFacts.NullRecord | src/unserialize.ts:44-46 | After `N`, decoding succeeds exactly when `;` follows. It gives null and consumes both characters. |
| GrammarFacts.BoolRecord | src/unserialize.ts:61-64 | `b:` consumes exactly one more character and is true exactly when that character is `1`. |
| GrammarFacts.BoolTruncated | src/unserialize.ts:62 | A `b:` at the end of the input fails with `UnexpectedEnd`. |
| GrammarFacts.IntRecord | src/unserialize.ts:47-60 | A successful `i:` record is its literal up to the next `;`, which is left unread. That literal parses to the integer returned. |
| GrammarFacts.UnknownMarker | src/unserialize.ts:145 | A marker outside the eight known ones fails with `UnknownType` in both modes. |
| GrammarFacts.StringRecord | src/unserialize.ts:77-101 | A successful `s:` record returns its scanned text and ends after the closing quote. In strict mode the declared length then equals the UTF-8 length. |
| GrammarFacts.StringByMode | src/unserialize.ts:85-101 | For a well-formed string record, the result is `StringLengthMismatch` exactly when the mode is strict and the lengths differ. Otherwise it is the text. |
| GrammarFacts.ArrayRecord | src/unserialize.ts:103-112 | An `a:` record reads the declared count of pairs and becomes their container. The container is a list of exactly that length, or a map with at most that many keys. |
| GrammarFacts.ObjectRecord | src/unserialize.ts:113-133 | An `O:` record reads its header and exactly the declared number of pairs, and becomes what `ObjectOf` makes of them. |
| GrammarFacts.CustomRecord | src/unserialize.ts:134-144 | A `C:` record reads its header and becomes what `CustomOf` makes of the name and the raw payload. |
| GrammarFacts.CustomHookMissing | src/unserialize.ts:139-141 | A well-formed `C:` record whose class is in scope but has no `unserialize` hook fails with `MissingUnserializeHook`, in both modes. |
| Containers.LastWinsKeys | src/unserialize.ts:108-110 | After the assignments, a key is present exactly when some pair carries it. |
| Containers.LastWinsValue | src/unserialize.ts:108-110 | A key holds the value of the last pair that carries it. |
| Containers.LastWinsSize | src/unserialize.ts:108-110 | Assigning `n` pairs leaves at most `n` keys. |
| Containers.ContainerShape | src/unserialize.ts:106-111 | The container is a list exactly when every key is `Int(i)` at position `i`, and the list then holds the values in order. Otherwise it is a map over all the keys, and each key keeps its last value. |
| Containers.EmptyIsList | src/unserialize.ts:106-107 | Zero pairs give the empty list. |
| Containers.OneMisplacedKeyMakesMap | src/unserialize.ts:106 | One key that differs from its position makes the whole container a map. |
| Containers.BuildContainer | src/unserialize.ts:106-111 | The assignment loop into a fresh array or object builds exactly `ContainerOf` of the pairs. |
| Classes.ResolveClass | src/unserialize.ts:10-21 | A name in scope gives a fresh instance of its prototype. A missing name fails with `ClassNotFound` in strict mode and gives the placeholder in lenient mode. Both results carry the name. |
| Classes.StripVisibility | src/unserialize.ts:119-131 | At most one prefix is removed, and the rest of the key is kept unchanged. The private `\0Name\0` prefix is checked first, then the protected `\0*\0` one; a key with neither is kept as it is. |
| Classes.StripMangle | src/unserialize.ts:119-131 | Stripping undoes the runtime's name mangling for private, protected and public properties. The exceptions are a protected name that also starts with the private prefix, and a public name that starts with `\0`. |
| Classes.PropsOf | src/unserialize.ts:121-131 | The properties are defined exactly when every key is a string. Otherwise the error is `PropertyKeyNotString`. |
| Classes.PropsOfContents | src/unserialize.ts:121-131 | The stored names are exactly the stripped keys. Each holds the value of the last pair whose key strips to it. |
| Classes.AssignProperties | src/unserialize.ts:121-131 | The `forEach` assignment loop computes `PropsOf`. It stops with an error at the first key that is not a string. |
| Classes.ObjectValue | src/unserialize.ts:117-132 | A fresh instance gives an object with the properties. The placeholder gives an incomplete object with the same name and properties. |
| Classes.CustomValue | src/unserialize.ts:138-143 | The hook receives the payload only on a real instance, and its absence is `MissingUnserializeHook`. The placeholder is returned without calling any hook. |
| Values.Utf8LengthBounds | src/unserialize.ts:85 | The UTF-8 byte length is between the character count and four times it. It equals the count exactly when the text is ASCII. |
| Samples.CafeDeclaredFive | src/unserialize.ts:85-101 | `s:5:"café";` decodes to `café` in both modes. |
| Samples.CafeDeclaredFour | src/unserialize.ts:85-101 | `s:4:"café";`, which declares the character count instead of the byte count, fails in strict mode and decodes in lenient mode. |
| Encoding.ListPairsContainer | src/unserialize.ts:106-111 | Pairs keyed `0, 1, ...` in order form the list of their values. |
| Encoding.NullDecoded | src/unserialize.ts:44-46 | `N;` decodes to null and consumes both characters. |
| Encoding.IntDecoded | src/unserialize.ts:47-60 | The spelling `i:<n>;` of any integer decodes to that integer and stops on the final `;`. |
| Encoding.BoolDecoded | src/unserialize.ts:61-64 | `b:1;` and `b:0;` decode to true and false and stop on the `;`. |
| Encoding.StrDecoded | src/unserialize.ts:77-101 | The spelling of a text without `"` decodes to that text in both modes, and stops on the final `;`. |
| Encoding.PairsDecoded | src/unserialize.ts:29-39 | The entries of a list's spelling decode, as `n` pairs, to the items keyed by their positions, in order. |
| Encoding.DecodeEncoded | src/unserialize.ts:42-146 | Wherever a value's spelling stands in the input, decoding there gives the value back. It stops at the end of the spelling, before a final `;` that the pair loop consumes. |
| Encoding.RoundTrip | src/unserialize.ts:42-146 | Decoding the spelling of any null, integer, boolean, quote-free string, or list of such values gives the value back, in both modes and under any scope. |

## Left out

- Grammar.DecodeFloat: floating point is not modelled. A `d:` record, or
  an `i:` literal that JavaScript would turn into a float (one holding `.`,
  or `NaN`), gives the error `FloatNotModelled`.
- Integer values: an `i:` literal becomes the exact unbounded `Int` it
  spells. The source first takes `parseInt`, a double, and keeps it when its
  `toString` equals the literal (src/unserialize.ts:49-53). For a literal
  beyond 2^53 whose nearest double prints back as the literal itself, such
  as `i:12345678901234567000;` (nearest double 12345678901234567168), the
  source therefore returns the rounded double, while the model returns
  `Int(12345678901234567000)`. Every other literal the model accepts gives
  the same integer in both, as a number or a `BigInt`; that host-type
  choice is not modelled,
  and for a container key it also changes the list-or-map decision (see the
  `Containers.IsListLike` line below).
- Containers.IsListLike: treats every integer key as a number. In the
  source, an `i:` literal whose `parseInt` result does not print back as
  the literal becomes a `BigInt` (src/unserialize.ts:49-53). Examples are
  non-canonical spellings such as `00`, `01`, `+1`, `-0` and the empty
  literal, and integers too large for a double to print back exactly.
  `idx === item.key` (src/unserialize.ts:106) then compares a number with a
  bigint, which is always false, so the source builds an object. For
  example, `a:1:{i:00;N;}` decodes to the object `{ "0": null }` in the
  source but to `List([Null])` in the model. Telling the two apart needs
  the double-precision `toString` of the literal, which is floating point
  and outside the model.
- Scan.ParseInteger: accepts only `[+-]digits`, plus the empty literal as 0,
  which is what `BigInt("")` gives. It rejects other text that `BigInt`
  tolerates, such as surrounding whitespace or a `0x` prefix.
- Scan.GetLength: the parser module that reads a declared length is not
  part of this model. The model assumes that it reads the decimal digits at
  the head of the text before the next `:` and fails when there are none.
  Any leniency of that parser about leading whitespace or a sign is not
  modelled.
- Positions are counted in characters, not bytes: the input is text that
  is already decoded. `Buffer.from`, the `encoding` option and
  byte-oriented `readAhead` counts are not modelled. The `encoding` field
  is resolved but never used.
- Diagnostics are not modelled: `console.error` logging, error message
  texts and URLs, and `parser.error` context. Errors are a datatype instead.
- JavaScript object semantics are not modelled:
  - keys of a map or of object properties are decoded values, not strings
    coerced by JavaScript;
  - key enumeration order is not modelled;
  - a non-string `O:` property key is the error `PropertyKeyNotString`,
    where the source throws a `TypeError` from `startsWith`.
- Classes.ResolveClass: the scope is a plain map, and a name is found
  exactly when it is one of its keys. The source looks the name up with
  `scope[className]` (src/unserialize.ts:12-14), and the default scope `{}`
  (src/unserialize.ts:150) is an ordinary JavaScript object, so names
  inherited from `Object.prototype` (`constructor`, `toString`, `valueOf`,
  `hasOwnProperty`, `__proto__`) are found too. `O:11:"constructor":0:{}`
  in strict mode therefore does not fail in the source, but gives
  `ClassNotFound` in the model. A scope entry whose value is falsy counts as
  missing in the source; the model's entries are prototypes, which are
  never falsy.
- Class scope: a prototype is modelled only by whether it has an
  `unserialize` hook. `getClass`, `getIncompleteClass` and the hook's body
  are foreign code.
- The cursor position after an error is not specified, because every error
  aborts the whole decode.
- Input after the first item is never examined, as in the source.
- Encoding.RoundTrip: covers null, integers, booleans, strings without `"`,
  and lists of these. The decoder ends a string at its first `"`, so a
  string that contains one does not read back. Maps and objects are not
  covered, because their spelling depends on JavaScript key order.
