# util-js core, modelled in Dafny

util-js is a bag of browser helpers hung on one `Util` object. This project
models the parts of `src/util.js` that hold logic rather than DOM access, and
proves properties of them:

- **`Util.Config`**: a key/value store whose operations close over one
  captured object. It becomes the class `ConfigStore.Config`, with the store
  as a `map` field that the methods reassign.
- **`Util.vars.z_index` / `Util.getZIndex`**: a counter that starts at 900
  and hands out its value before moving one up. It becomes the class
  `Counter.Vars`.
- **`Util.parseVersion` / `Util.versionCompare`**: dotted versions read with
  `parseInt(...) || 0`, then compared field by field. They are pure
  functions in `Versions`. `parseInt` follows the ECMAScript rules: leading
  white space, a sign, a `0x` prefix, the longest digit prefix, and NaN
  when nothing parses. `Strings` models the JavaScript `split`.
- **`Util.truncate`**: cuts a long string and appends a marker (`Truncation`).
- **The `Array.prototype.indexOf` polyfill**: a scan loop, kept as a method
  with its loop (`ArrayIndexOf`).
- **`Util.parseStr`** (`QueryString`, with its properties in
  `QueryStringFacts`):
  - the tokenizer follows `/([^&=]+)=?([^&]*)/g` character by character;
  - keys are cut at `][` and `[`;
  - nested containers are created along the key path;
  - repeated plain keys accumulate into an array;
  - with `coerce`, values go through the coercion exactly as written, which
    leaves "false" and "null" as strings (see Findings).

  The source's `while` loop is the method `QueryString.ParseStr`. It is
  proved equal to the fold `QueryString.Parse` over the matches.
  JavaScript values are the datatype `QueryString.Value`. An array keeps its
  index elements, with holes read as `undefined`, and keeps its other named
  properties apart. Its `length` is not a stored property: reading it gives
  the element count, and assigning it truncates or extends the elements, or
  throws RangeError when the value is not a valid array length. Pushing onto
  an array of 2^32-1 elements throws RangeError too.
- **`Util.randomUUID`**: the random source is an input. `draws` lists the
  successive values of `0 | (Math.random() * n)` that the function uses.
  It becomes the method `Uuid.RandomUUID`, over an array of slots as in the
  source.

`QueryString.Host` gathers the three host facilities `parseStr` relies on,
as parameters:

- `decodeURIComponent`: `None` means it throws URIError.
- The string-to-number conversion behind `isNaN`, unary `+` and an array
  `length` assignment: `None` means NaN.
- `Number.prototype.toString`, which renders a number used as a property
  name.

## Model

| member | source | states |
|---|---|---|
| ConfigStore.Config.constructor | src/util.js:128-133 | a new store is empty |
| ConfigStore.Config.Has | src/util.js:134-136 | true exactly when the key is stored |
| ConfigStore.Config.Get | src/util.js:140-142 | the stored value when the key is present, otherwise the default |
| ConfigStore.Config.Set | src/util.js:137-139 | the key then maps to the value for every default; every other key keeps its presence and its value |
| ConfigStore.Config.Unset | src/util.js:143-145 | reports whether the key was present; afterwards the key is absent and the rest of the store is unchanged |
| ConfigStore.Config.Backup | src/util.js:146-148 | holds exactly the stored keys, each with its stored value |
| ConfigStore.Config.Reset | src/util.js:149-151 | an object dataset becomes the whole store; anything else empties it; a backup taken afterwards returns that dataset |
| Counter.Vars.constructor | src/util.js:156-159 | the counter starts at 900 |
| Counter.Vars.GetZIndex | src/util.js:162-165 | returns the value before the call and leaves the counter one higher, so successive results strictly increase |
| Versions.ParseVersion | src/util.js:271-284 | fails exactly when the argument is not a string |
| Versions.ParseDotted | src/util.js:271-284 | dotted naturals parse to their first three numbers; a missing one is 0 and extra ones are ignored |
| Versions.ParseInt | src/util.js:276 | blank text is NaN; a negative result needs a leading minus sign (what every digit string gives is stated by `ParseIntLeading` and `ParseIntNoDigits`) |
| Versions.ParseIntLeading | src/util.js:276 | leading white space, an optional sign, decimal digits `d` and then a character that is not a digit (or nothing) parse to the value of `d`, negated after `-`; leading zeros are read as decimal, except that a lone "0" before `x` is a hex prefix |
| Versions.ParseIntNoDigits | src/util.js:276 | white space and an optional sign followed by no digit give NaN |
| Versions.TrimStartOf | src/util.js:276 | `parseInt` drops exactly the white space in front of the first non-space character |
| Versions.MagnitudeLeading | src/util.js:276 | the digits up to the first non-digit are the magnitude `parseInt` reads |
| Versions.VersionFieldLeading | src/util.js:271-284 | a version field whose piece starts with a number, after optional white space and sign, is that number, whatever follows it |
| Versions.VersionFieldNoDigits | src/util.js:271-284 | a version field whose piece has no leading number is 0 |
| Versions.ParseThreePieces | src/util.js:271-284 | three dot-free pieces joined by dots parse to `parseInt(piece) \|\| 0` of each |
| Versions.ParseTwoPieces | src/util.js:271-284 | two dot-free pieces joined by a dot have patch 0 |
| Versions.LetterPiece | src/util.js:271-284 | "1.x.3" gives {1,0,3} |
| Versions.SuffixPiece | src/util.js:271-284 | "1.2.3-beta" gives {1,2,3} |
| Versions.LeadingZeroPiece | src/util.js:271-284 | "1.02" gives {1,2,0} |
| Versions.ParseIntOfNat | src/util.js:276-278 | `parseInt` of the decimal text of a natural gives that natural back |
| Versions.TrimStartSkipsWhiteSpace | src/util.js:276 | `parseInt` first drops exactly the leading white space: what it keeps is a suffix that starts with a non-space |
| Numerals.DigitPrefixDigits | src/util.js:276 | the prefix `parseInt` reads consists of digits of the radix only |
| Versions.ParseIntOfDigits | src/util.js:276 | `parseInt` of any decimal digit string, leading zeros included, is its value |
| Versions.MissingPieceIsZero | src/util.js:276-278 | a missing piece (`parseInt(undefined)`, NaN) counts as 0 |
| Versions.ParseExamples | src/util.js:271-284 | "1.2.3" gives {1,2,3}; "1" gives {1,0,0}; a non-string gives no version (`false` in the source) |
| Versions.CompareParsed | src/util.js:294-312 | the result is always -1, 0 or 1 |
| Versions.VersionCompare | src/util.js:287-313 | fails exactly when an operand is not a string; otherwise gives -1, 0 or 1 |
| Versions.CompareIsLexicographic | src/util.js:294-312 | -1 and 1 mean lexicographically smaller or larger on (major, minor, patch); 0 means equal |
| Versions.VersionCompareMeaning | src/util.js:287-313 | two strings compare 0 exactly when they parse to the same version, and -1 exactly when the first parses lexicographically smaller |
| Versions.CompareAntisymmetric | src/util.js:287-313 | swapping the operands negates the result |
| Versions.CompareParsedAntisymmetric | src/util.js:294-312 | on parsed versions, swapping the operands negates the result |
| Versions.CompareTransitive | src/util.js:287-313 | "smaller than" is transitive |
| Versions.CompareExamples | src/util.js:287-313 | the results for a smaller minor, a larger major, equal versions and a non-string operand |
| Truncation.EffectiveMax | src/util.js:236 | no limit or a limit of 0 means 100; any other limit is kept |
| Truncation.Truncate | src/util.js:234-242 | the string is unchanged when it fits within limit plus replacement; otherwise it is its first `max_length` characters plus the replacement |
| Truncation.TruncateLength | src/util.js:234-242 | for a positive limit, the result's length is the smaller of the input's and limit plus replacement; a cut result starts with the input's prefix and ends with the replacement |
| Truncation.TruncateIdempotent | src/util.js:234-242 | truncating twice with the same arguments equals truncating once |
| Truncation.TruncateDefaults | src/util.js:236-239 | no limit (or 0) means 100; no replacement means "..." |
| Truncation.Prefix | src/util.js:241 | `substring(0, end)` clamps the end into the string and returns a prefix |
| ArrayIndexOf.StartIndex | src/util.js:29-35 | a non-negative `fromIndex` is the start; a negative one is `length + fromIndex`, or 0 when that is not positive, so a positive start lies `-fromIndex` places before the end |
| ArrayIndexOf.IndexOf | src/util.js:12-45 | the result is -1 exactly when no element at or after the start equals the one searched for; otherwise it is the first index at or after the start that holds it |
| Uuid.RandomUUID | src/util.js:393-414 | with a length: the joined text of `chars[draws[i]]` for each slot below the length (none for a negative length), undefined slots dropped; for a radix from 1 to 62 that is exactly that many characters, all among the first `radix`; without one: the RFC 4122 version 4 layout with each slot as the presets and draws dictate |
| Uuid.CompactId | src/util.js:396-399 | the result is the joined text of the slots `chars[draws[i]]` below the length, undefined ones dropped; no longer than the length and all alphabet characters; for a radix from 1 to 62 exactly the length, each character that of its draw |
| Uuid.CompactText | src/util.js:396-399 | the same facts stated of the joined slots for any length and radix |
| Uuid.FillCompactSlots | src/util.js:397-398 | after the loop slot i holds `chars[draws[i]]` for every i below the length |
| Uuid.RfcId | src/util.js:400-413 | presets at 8, 13, 18, 23 and 14; every other slot takes the next draw, slot 19 through `(r & 0x3) \| 0x8` |
| Uuid.VariantDigit | src/util.js:409 | `(r & 0x3) \| 0x8` is one of 8, 9, 10, 11 and keeps the draw's two low bits |
| Uuid.FillRfcSlots | src/util.js:406-411 | after the loop every one of the 36 slots holds its preset or the character its draw selects |
| Uuid.RfcCharShape | src/util.js:400-413 | that slot layout is the RFC 4122 version 4 text form |
| Uuid.AlphabetDigits | src/util.js:394 | the alphabet has 62 characters, its first 16 are lower-case hex digits, and characters 8 to 11 are the variant digits |
| Uuid.JoinSlots | src/util.js:413 | `join('')` is no longer than the slot array, and empty when every slot is undefined |
| Uuid.JoinSlotsChars | src/util.js:413 | every character of the joined text comes from a filled slot |
| Uuid.EffectiveRadix | src/util.js:395 | a missing or zero radix means the whole 62-character alphabet, and any other radix is kept as given; so the radix used is never 0 |
| Strings.Split | src/util.js:275 | `split(sep)` always returns at least one piece |
| Strings.JoinSplit | src/util.js:275 | joining the pieces of a split with its separator gives back the string |
| Strings.SplitSingleIff | src/util.js:357 | a split gives one piece exactly when the separator does not occur |
| Strings.SplitNone | src/util.js:275 | a text without the separator's first character splits into itself alone |
| QueryString.SkipFrom | src/util.js:339 | the regex's search for a match start stops on a key character or at the end |
| QueryString.KeyEnd | src/util.js:339 | `[^&=]+` stays within the input and takes at least the key character it starts on |
| QueryString.ValueStart | src/util.js:339 | `=?` consumes at most one `=`, exactly when one follows the key, and never goes beyond the input |
| QueryString.SkipFromMaximal | src/util.js:339 | every character skipped is `&` or `=` |
| QueryString.KeyEndMaximal | src/util.js:339 | `[^&=]+` takes the longest run of key characters |
| QueryString.ValueEndMaximal | src/util.js:339 | `[^&]*` takes the longest run without `&` |
| QueryString.NextMatch | src/util.js:339-348 | a match found from `lastIndex` ends strictly after it, so the loop progresses, and its key is never empty |
| QueryString.TokensFrom | src/util.js:339-348 | the matches from a position on are at most as many as the characters left, and none has an empty key |
| QueryString.Tokens | src/util.js:339-348 | a query has at most as many matches as characters, and no match has an empty key |
| QueryString.CoerceAsWritten | src/util.js:354 | numeric text becomes its number, "undefined" becomes `undefined` and "true" becomes `true`; nothing becomes `null` or `false`, and every other text stays the same string |
| QueryString.Coerce | src/util.js:342-355 | the intended coercion: numeric text becomes its number; otherwise every table entry ("true", "false", "null") and "undefined" become their literals, and any other text stays a string |
| QueryString.ToNumber | src/util.js:369 | a number is itself, a string is the host's conversion of it, `undefined` is NaN |
| QueryString.Get | src/util.js:368-369 | an array's or a string's `length` is a number; an object yields only its own keys; a number, boolean, null or undefined has no properties |
| QueryString.Fresh | src/util.js:369 | a missing container is an object exactly when the next segment is non-empty and not numeric, otherwise an array |
| QueryString.NewLength | src/util.js:369 | a value assigned to an array's `length` is accepted exactly when it converts to a whole number from 0 to 2^32-1, and that number is the new length |
| QueryString.Resize | src/util.js:369 | the new length keeps the elements below it and fills any growth with holes |
| QueryString.Put | src/util.js:369 | assigning an array's `length` fails with RangeError exactly when the value is not a valid length; any other assignment succeeds and keeps an object an object and an array an array; into a primitive it is dropped |
| QueryString.Resolve | src/util.js:368 | a non-empty segment is the property name itself; an empty one under an array is the decimal text of its length, under an object it is the text of its `length` property, or "undefined" when it has none, and under a number, boolean, null or undefined it is "undefined" |
| QueryString.Walk | src/util.js:366-370 | walking a path fails only with RangeError; a success keeps the container's kind and leaves a primitive as it is |
| QueryString.Holes | src/util.js:369 | writing past an array's end leaves `undefined` holes |
| QueryString.SplitKey | src/util.js:357-364 | a key always yields at least one path segment |
| QueryString.Accumulate | src/util.js:371-379 | the key is present afterwards and every other key as it was; an absent or falsy earlier value is replaced; an earlier array keeps its elements and properties and gains the new value at the end; any other truthy earlier value becomes the array [earlier, new] |
| QueryString.Step | src/util.js:349-379 | one match throws URIError exactly when its key or value does not percent-decode; a match that succeeds keeps every earlier parameter name |
| QueryString.Parse | src/util.js:336-384 | a query that is empty once its `?` is stripped gives {}; any other runs the loop over its matches from {} |
| QueryString.ApplyAllAppend | src/util.js:348-380 | running the loop over two consecutive runs of matches is running it over the first, then the second; a failure in the first is the result |
| QueryString.ParseStr | src/util.js:336-384 | the loop's result, including the URIError or RangeError it throws, is `Parse`, the left fold of `Step` over the regex's matches |
| QueryStringFacts.TokensOfRender | src/util.js:339-348 | a query written as `key=value` fields joined by `&` tokenizes to exactly those pairs; a field written without `=` has an empty value |
| QueryStringFacts.TokensOfFieldThen | src/util.js:339-348 | a field followed by `&` yields its own pair and then the tokens of the rest |
| QueryStringFacts.TokensFromShift | src/util.js:339-348 | text in front of the scan position does not change the matches after it |
| QueryStringFacts.SeparatorSkipped | src/util.js:339 | an `&` or `=` where a match would start is skipped |
| QueryStringFacts.LeadingEqualsSkipped | src/util.js:339 | "=x" yields the key "x" with an empty value |
| QueryStringFacts.NextMatchField | src/util.js:339 | one well-formed field is matched whole |
| QueryStringFacts.SplitKeyBrackets | src/util.js:357-364 | `base[s1]...[sn]`, with none of the parts holding brackets, splits into [base, s1, ..., sn] |
| QueryStringFacts.SplitKeySingle | src/util.js:357-364 | a key is a single segment exactly when it holds no `][` and does not have both a `[` and a final `]`; that segment is then the key itself |
| QueryStringFacts.SplitKeyNested | src/util.js:357-364 | "a[b][c]" gives the path [a, b, c] |
| QueryStringFacts.SplitKeyAppend | src/util.js:357-364 | "a[]" gives the path [a, ""] |
| QueryStringFacts.ArrayIndexOfNat | src/util.js:369 | the decimal text of any index up to 2^32-2 names that array element |
| QueryStringFacts.GetPut | src/util.js:369 | reading back a property just assigned on a container gives the assigned value; for an array's `length` it gives the new length |
| QueryStringFacts.FreshOpen | src/util.js:369 | a freshly created container can be walked along any path that names no `length` |
| QueryStringFacts.WalkStores | src/util.js:366-370 | a walk along non-empty segments through containers, none of them an array asked for its `length`, succeeds, and following the path leads to the stored value |
| QueryStringFacts.AppendSegment | src/util.js:368-369 | `a[]` pushes: an empty last segment appends the value at index `length` |
| QueryStringFacts.LengthAssigned | src/util.js:369 | ending a path at an array's `length` throws RangeError for an invalid length and otherwise resizes the array |
| QueryStringFacts.LengthWalkedThrough | src/util.js:369 | `curr = curr[k] = child` with `k` = `length`: the array becomes the length's conversion of itself, so it is left unchanged and the rest of the path writes into a detached value |
| QueryStringFacts.FreshChild | src/util.js:369 | a missing or falsy intermediate property is replaced by a fresh container shaped by the next segment, and a failure below is passed up |
| QueryStringFacts.ReuseChild | src/util.js:369 | a truthy intermediate property is walked into, not replaced, and a failure below is passed up |
| QueryStringFacts.WalkFrame | src/util.js:366-370 | a successful walk adds its first key and leaves every other top-level key as it was |
| QueryStringFacts.RepeatedKeyCollects | src/util.js:371-379 | the values of a plain key seen several times, the first truthy and not an array, end up as that value alone or as an array of all of them in order |
| QueryStringFacts.AccumulateExtends | src/util.js:371-375 | one more value under a key that holds one truthy non-array value, or an array of values, gives the array of all of them with the new one last |
| QueryStringFacts.CollectOntoArray | src/util.js:371-375 | values repeated onto a key that already holds an array are appended after its elements, in order, and its properties are kept |
| QueryStringFacts.CollectFrame | src/util.js:371-379 | repeating one key leaves every other key as it was |
| QueryStringFacts.FalsyFirstValueReplaced | src/util.js:371-378 | an empty first value is falsy and is overwritten, not collected |
| QueryStringFacts.CoerceLiterals | src/util.js:342-355 | with the intended coercion, "true", "false", "null" and "undefined" become those values and numeric text becomes its number |
| QueryStringFacts.CoerceAsWrittenKeepsFalsy | src/util.js:342-354 | as written, "false" and "null" stay strings, unlike the intended coercion |
| QueryStringFacts.CoerceAsWrittenAgrees | src/util.js:342-354 | on every other text the written coercion agrees with the intended one |
| QueryStringFacts.UndecodableFails | src/util.js:343-351 | the loop fails when some match has a key or value that does not percent-decode, and it throws URIError only then |
| QueryStringFacts.ParseUndecodableFails | src/util.js:336-351 | `parseStr` fails when some match of the query has a key or value that does not percent-decode, and it throws URIError only then |
| QueryStringFacts.ParseEmpty | src/util.js:337-347 | "" and "?" give an empty object |
| QueryStringFacts.OneQuestionMarkStripped | src/util.js:337 | exactly one leading `?` is removed |
| QueryStringFacts.StepFrame | src/util.js:349-379 | one successful match changes only the top-level key it decodes to |
| QueryStringFacts.DecodePlain | src/util.js:343-345 | a text without `+` on which `decodeURIComponent` is the identity decodes to itself |
| QueryStringFacts.StepPlainKey | src/util.js:349-379 | a plain one-segment key accumulates its value, coerced as written, at the top level; pushing onto an array of 2^32-1 elements throws RangeError |
| QueryStringFacts.StepPathKey | src/util.js:349-370 | with or without coercion, a bracketed key of several segments walks its path from the parameters object with the (coerced) value and throws what the walk throws |
| QueryStringFacts.ParseOne | src/util.js:348 | a one-match query is that one step |
| QueryStringFacts.ParseTwo | src/util.js:348 | a two-match query is the two steps in order |
| QueryStringFacts.ParseTwoFails | src/util.js:348 | when the first of two matches fails, that failure is the result |
| QueryStringFacts.ParseFlat | src/util.js:336-384 | "a=1&b=2" gives {a: "1", b: "2"} |
| QueryStringFacts.ParseFlatCoerced | src/util.js:336-384 | with coercion "a=1&b=2" gives {a: 1, b: 2} |
| QueryStringFacts.ParseArray | src/util.js:336-384 | "a[]=1&a[]=2" gives {a: ["1", "2"]} |
| QueryStringFacts.ParseObject | src/util.js:336-384 | "a[b]=1&a[c]=2" gives {a: {b: "1", c: "2"}} |
| QueryStringFacts.ParseFalseStaysString | src/util.js:336-384 | with coercion "a=false" gives {a: "false"} |
| QueryStringFacts.ParseFalseThenOne | src/util.js:336-384 | with coercion "a=false&a=1" gives {a: ["false", 1]}: the truthy string is collected, not replaced |
| QueryStringFacts.IntendedFalseReplaced | src/util.js:354-379 | had "false" become `false`, the later 1 would replace it, giving {a: 1} |
| QueryStringFacts.ParseLengthCut | src/util.js:336-384 | "a[]=1&a[length]=0" gives {a: []} |
| QueryStringFacts.ParseLengthInvalid | src/util.js:336-384 | "a[]=1&a[length]=x" throws RangeError |
| QueryStringFacts.UndefinedKeyWalks | src/util.js:366-370 | "a[x]=1" walks to {a: {x: "1"}} |
| QueryStringFacts.ParseUndefinedKey | src/util.js:336-384 | "a[x]=1&a[]=2" gives {a: {x: "1", undefined: "2"}}: an empty segment under an object without `length` is the key "undefined" |
| QueryStringFacts.PlainAfterArrayStep | src/util.js:371-375 | a plain `a=2` after `a[]=1` pushes onto the array |
| QueryStringFacts.ParsePlainAfterArray | src/util.js:336-384 | "a[]=1&a=2" gives {a: ["1", "2"]} |

## Left out

- `Util.round`, `Util.numberFormat` and `Util.dataSize` are left out: they
  compute in floating point.
- `Util.parseUrl`, `Util.isTouchDevice` and `Util.windowGUID` are left out:
  they read the DOM, `window` or `navigator`.
- `Util.toType`, the `Util.is*` predicates, `Util.objectSize` and
  `Util.ucfirst` are left out: they are one-line wrappers over JavaScript
  reflection and string built-ins.
- `Util.randomID` is left out: its result is `Math.random()` in base 36, a
  floating-point rendering.
- The `String.prototype.startsWith`, `endsWith` and `includes` polyfills and
  the `Object.keys` polyfill are left out. They are host fallbacks, not util
  logic.
- `Util.parseStr` with a query that is not a string is left out. Its
  `'' + queryString` conversion depends on the host's `toString`; the
  model's input is the string that results.
- QueryString.Get: only own properties and the `length` of arrays and
  strings are read. An inherited name such as `toString`, `__proto__` or
  `push` as a path segment (e.g. `toString[a]=1`) does not reach the
  prototype as it does in JavaScript.
- QueryString.Put: assigning `__proto__` on an object stores an ordinary
  property. In JavaScript it changes the object's prototype, or is ignored
  when the value is not an object; the same holds for a plain key
  `__proto__` in `QueryString.Accumulate`.
- QueryString.Accumulate: `params[k]` is an ordinary map lookup. In the
  source it also finds the names every object inherits from
  `Object.prototype` (`toString`, `constructor`, `valueOf`,
  `hasOwnProperty`, `isPrototypeOf`, `propertyIsEnumerable`,
  `toLocaleString`). Those are truthy functions, so `parseStr("toString=1")`
  gives `{toString: [Object.prototype.toString, "1"]}`, where the model gives
  `{toString: "1"}`.
- QueryString.Parse: objects are `map`s, so the order in which keys were
  inserted, which `Object.keys` and `for...in` follow, is not part of the
  result. The same holds for `ConfigStore.Config.Backup`.
- QueryString.Walk: it rebuilds the result as a value rather than mutating
  shared objects in place. Nothing in `parseStr` aliases a container under
  two keys, so no effect is lost.
- QueryString.Value: numbers are mathematical reals. NaN, the infinities and
  -0 are not distinguished; the host's `toNumber` decides what a text
  denotes, and the host's `numberToString` how a number reads as a property
  name.
- QueryString.CoerceAsWritten: `coerceTypes[v]` also finds the names
  `coerceTypes` inherits from `Object.prototype` ("constructor", "toString",
  "hasOwnProperty", "__proto__" and the rest). Those values are functions or
  objects and truthy, so the source returns them; the model, which has no
  function values, returns the string instead.
- QueryString.Coerce: an empty value under coercion becomes whatever the
  host gives for `Number("")` (0 in JavaScript), as in the source.
- Strings: characters are sequence elements; UTF-16 surrogate pairs are not
  modelled.
- Versions.ParseInt: the digit value is exact, not rounded to a double
  beyond 2^53. Versions may be negative ("-1.2"): the code accepts a sign,
  so the model follows the code rather than a non-negative reading.
- ArrayIndexOf.IndexOf: works on a sequence with no holes, and `fromIndex`
  is an integer. The polyfill converts it with `+fromIndex || 0` and sets an
  infinite value to 0, but does no `ToInteger`. So a fractional start below
  the length, or a negative fractional one whose magnitude is below the
  length, gives -1, because no fractional index is `in` the array; a negative
  one whose magnitude is at least the length starts at 0 as usual. Neither
  the conversion nor fractional starts are modelled. It does not model
  `>>> 0` on a fractional or huge `length`, or NaN never equalling itself.
- Uuid.RandomUUID: `radix` is a mathematical integer. Its effect through
  `0 | (Math.random() * radix)` is captured only by the draws the caller
  supplies, and `requires` states the range those draws fall in. `len` is
  an integer too: in the source, `i < len` with a fractional `len` such as
  2.5 writes ceil(len) slots (here 3), which is not modelled.
- ConfigStore.Config.Set: the store is a plain `map`. In the source,
  `set("__proto__", x)` changes the data object's prototype, so `has` stays
  false for it, and after `set("hasOwnProperty", x)` with a non-function `x`
  every later `has`, `get` and `unset` throws TypeError
  (`data.hasOwnProperty` is then the stored value). Neither effect is modelled.
- ConfigStore.Config.Reset: the store takes the dataset's contents as a
  value. The source adopts the caller's object itself, so later changes
  the caller makes through its own reference show in the store.
- ConfigStore.Config.Backup: returns the store's contents as a value. The
  source returns the live object, through which a caller could change the
  store without `set`.
- Truncation.Truncate: the input is a string and `max_length` a number. The
  `'' + string` conversion of any other input is not modelled. A string
  `max_length` such as "5" is not modelled either: `max_length +
  replacement.length` then concatenates ("5" + 3 is "53"), so
  `truncate("abcdefghij", "5")` returns the input unchanged. A non-string
  `replacement` concatenated by `+` is not modelled; the replacement is a
  string.
- Truncation.TruncateLength: states the length only for a positive limit.
  For a negative one `substring` clamps the end at 0, so `truncate("abc", -1)`
  is "..."; `Truncate` follows this.

## Findings

| source | as written | input that shows it | evidently intended | confidence | as-written member | corrected member |
|---|---|---|---|---|---|---|
| src/util.js:342-354 | `coerceTypes[v] ? coerceTypes[v] : v` tests the table's value for truthiness | `parseStr("a=false", true)` and `parseStr("a=null", true)` leave the strings "false" and "null"; `parseStr("a=false&a=1", true)` then gives {a: ["false", 1]} | the table maps "false" to `false` and "null" to `null`, so those should be returned | not executed | QueryString.CoerceAsWritten, QueryStringFacts.CoerceAsWrittenKeepsFalsy, QueryStringFacts.ParseFalseStaysString, QueryStringFacts.ParseFalseThenOne | QueryString.Coerce, QueryStringFacts.CoerceLiterals, QueryStringFacts.IntendedFalseReplaced |
