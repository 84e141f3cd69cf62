# UniValue and JSON-RPC, modelled and proved

This project models the JSON engine in `univalue/` and the JSON-RPC layer in
`rpc/` that uses it, and proves what they are for: exactly which JSON texts the
parser accepts and what it stores for them, text and values convert into each
other without loss, strings come out normalised, and a batch of requests is
answered item by item.
`dafny verify dfyconfig.toml` checks everything.

## How it is built

Bytes are integers 0..255. The layers follow the source:

| file | models |
|---|---|
| `Bytes`, `Bits` | byte strings; the C++ bit operators, bit by bit |
| `Utf8`, `Filter`, `FilterRuns` | the string filter class, its runs, its reference description |
| `Strings`, `Numbers`, `Lexer`, `TokenLists` | escapes, number scan, `getJsonToken`, token lists |
| `Values`, `Machine`, `Reader` | values and their token lists, the pushdown machine on tokens, `read` on bytes |
| `Syntaxes`, `Grammar`, `Conformance` | the grammar of RFC 8259 on bytes, which of its texts `read` accepts, where the two part |
| `Writer`, `Printing`, `RoundTrip` | `write`, its text byte by byte, and reading back what was written |
| `Failures` | where a failed `read` stops and what it leaves |
| `Integers`, `IntegerRoundTrip`, `Objects`, `UniValueClass` | integer text, objects as maps, the `UniValue` class with the literal `read` loop |
| `Protocol`, `NamedArguments`, `Server` | replies and errors, `transformNamedArguments`, requests and batches |
| `Answers` | what each request is answered, said from its command |

Code that changes things in place is a class or a method with loops
(`JSONUTF8StringFilter`, `UniValue`, `JSONRPCRequest`, the lexer, the writer, the
argument transformation); each is proved against a specification function, and
the theorems are about those functions.

Modelling choices a reader should know:

- `UniValue` holds its children by value, so a child is a value of the datatype
  `Value`. The parser's stack of pointers is a depth into the chain of last
  children of the tree under construction; a write through the top pointer is a
  write at that node.
- `Flatten(v)` is the token list of which `v` is the parse tree, with separators
  between items only. `Shape` says a value is such a tree, `WellFormed` adds that
  every number is one of RFC 8259 and every string and key is filter output.
- `Syntaxes` states the grammar of RFC 8259 on bytes without the lexer or the
  filter: a syntax tree keeps strings as written, character by character.
  `Sound` and `Stored` say which trees are accepted and as what, in terms of the
  reference description of the filter (`Items`, `Paired`, `Emit`). Section 8.1,
  which asks for UTF-8, is the predicate `Utf8Octets`.
- `getJsonToken` receives the input with the NUL that ends a C++ string; the
  keyword and number cases look at it.
- The filter's `codepoint` field keeps stale bits between characters. Its model
  ignores them there, because nothing reads them.
- `Writable` is the exact condition under which `write` does not throw: an object
  left by a failed `read` can have a key without a value, and then `values.at(i)`
  throws. `PushKV`, `GetObjMap` and the argument transformation demand a value
  where the source indexes the vector unchecked: for the key found, for every
  key, and for every named parameter (`Answerable`).
- Functions of libraries are small specifications: `strtol` and `strtoll` (value,
  end and range error, with the width of `long` a parameter), decimal output,
  `strncmp`, `boost::split`, and `begin()` of the unordered map of arguments, which
  is a parameter because its order is unspecified.
- Exceptions are results. A command is an arbitrary function of the request that
  returns, throws a `UniValue` or throws a `std::exception`.

## What the code does that one might not expect

- A lone minus sign at the end of the input lexes as a number
  (`Numbers.LoneMinus`), so `read` accepts it; it is the only ill-formed value
  `read` yields (`RoundTrip.ReadImage`).
- Surrogates are joined with `|`, so half of the supplementary planes come out one
  plane too low (`FilterRuns.SurrogatePair` gives the exact condition,
  `Conformance.ProperTextRead` carries it to whole texts, `Conformance.WrongPlane`
  is an input).
- JSON in UTF-8 is rejected when a surrogate escape is out of place, which the
  grammar allows (`Conformance.Utf8TextRead`; `Conformance.LoneHalfRejected` is an
  input).
- `setNumStr` accepts trailing text (`Integers.NumStrAccepts` gives the exact
  condition).
- Strings that are no UTF-8 are accepted as long as lead and continuation bytes
  match: overlong forms and values up to 0x1FFFFF, re-encoded shortest
  (`Conformance.OverlongAccepted`, `Conformance.BeyondUnicodeAccepted`). An ASCII
  byte between two surrogate halves is passed through without breaking the pair
  (`Conformance.PairAcross`). `Grammar.JsonTextRead` is the exact condition.
- The third handler in `JSONRPCExecOne` cannot be reached by a `std::exception` from
  `execute` (`Server.ExecuteThrowsValues`), only from `parse`, by an object with a
  key that lacks its value (`Server.ThirdHandler`); values read from text have none.

## Model

| member | source | states |
|---|---|---|
| `Filter.JSONUTF8StringFilter.constructor` | univalue/univalue_utffilter.h:16-19 | a new filter is between characters, valid and empty |
| `Filter.JSONUTF8StringFilter.PushBack` | univalue/univalue_utffilter.h:21-47 | one byte moves the filter as the arithmetic description of UTF-8 decoding does; the shifts, masks and ors of the code are proved equal to it and the 21-bit bound is kept |
| `Filter.JSONUTF8StringFilter.PushBackU` | univalue/univalue_utffilter.h:49-71 | one code point collates surrogates as described; mid-sequence it invalidates |
| `Filter.JSONUTF8StringFilter.Finalize` | univalue/univalue_utffilter.h:74-79 | accepts iff valid with no open sequence and no open surrogate, and changes nothing but the verdict |
| `Filter.JSONUTF8StringFilter.AppendCodepoint` | univalue/univalue_utffilter.h:99-116 | appends the encoding of the code point; nothing beyond 21 bits |
| `Filter.PushKeepsInv` | univalue/univalue_utffilter.h:82-97 | the state invariant (aligned prefix, 21-bit bound, legal open surrogate) survives every call, and invalid stays invalid |
| `Filter.CollateIsOr` | univalue/univalue_utffilter.h:53-61 | the code's nested or of a surrogate pair equals the collated value for every pair, in 0x10000..0xFFFFF |
| `FilterRuns.SurrogatePair` | univalue/univalue_utffilter.h:53-64 | the collated value is RFC 2781's iff bit 6 of the high payload is clear, else it is one plane lower; its four bytes decode back to it |
| `FilterRuns.SurrogateCounterexample` | univalue/univalue_utffilter.h:61 | D840 DC00 yields U+10000 where RFC 2781 has U+20000 |
| `Utf8.EncodeShortest` | univalue/univalue_utffilter.h:99-116 | the encoding is the shortest unit with its value and the only one of that length |
| `Utf8.EncodeIsUnit` | univalue/univalue_utffilter.h:99-116 | every encoding is one complete unit whose value is the code point |
| `FilterRuns.RunUnit` | univalue/univalue_utffilter.h:28-46 | between characters, pushing a whole unit byte by byte acts as one code point, overlong or not |
| `FilterRuns.FilterRefines` | univalue/univalue_utffilter.h:21-116 | over every run of calls, acceptance is exactly: complete units only and surrogate halves paired; the text is the collated code points re-encoded, ASCII in place |
| `FilterRuns.NormalForm` | univalue/univalue_utffilter.h:21-116 | after any interleaving of calls with any code points, even a rejected one, the text is a run of shortest encodings of non-surrogates up to 1FFFFF and survives a second pass unchanged |
| `FilterRuns.FixedPoint` | univalue/univalue_utffilter.h:21-79 | a byte string passes unchanged iff it is in normal form |
| `FilterRuns.Utf8Passes` | univalue/univalue_utffilter.h:21-47 | all UTF-8 of section 4 of RFC 3629 passes unchanged |
| `FilterRuns.UnchangedIsUtf8` | univalue/univalue_utffilter.h:21-47 | a string that passes unchanged is UTF-8 of RFC 3629 iff none of its code points exceeds 10FFFF |
| `Utf8.Utf8IsEncoding` | univalue/univalue_utffilter.h:99-116 | the UTF-8 of RFC 3629 is exactly the shortest encodings, as append_codepoint writes them, of Unicode scalar values |
| `Strings.JsonEscape` | univalue/univalue_write.cpp:11-27 | the loop returns the concatenated table entries |
| `Printing.EscapeTable` | univalue/univalue_escapes.h:4-261 | exactly the control characters, quotation mark, reverse solidus and DEL are escaped: with the letter of section 7 of RFC 8259 where the table uses one, else with four lower-case digits of the byte |
| `Strings.EscapeRoundTrip` | univalue/univalue_escapes.h:4-261 | after the opening quote, the escaped string and a closing quote read as the string iff it is a fixed point of the filter |
| `Strings.BodyOfEscapedByte` | univalue/univalue_escapes.h:4-261 | every table entry is undone by the lexer as one filter call, including NUL, quote, backslash and 0x7f |
| `Strings.StringTokensNormal` | univalue/univalue_read.cpp:172-232 | every string token is in the filter's normal form |
| `Lexer.Hatoui` | univalue/univalue_read.cpp:17-41 | stops at the first non-hexadecimal byte with the value of the digits before it modulo 2^32 |
| `Lexer.ReadNumber` | univalue/univalue_read.cpp:103-170 | the number case takes exactly the bytes of the scan, looking at the terminating NUL where the code does |
| `Lexer.ReadEscape` | univalue/univalue_read.cpp:182-214 | one escape is consumed and makes exactly its filter call, which Grammar.EscapeLetters and Grammar.HexIsCodeUnit tie to RFC 8259; a failure means the body is no string |
| `Grammar.EscapeLetters` | univalue/univalue_read.cpp:188-196 | the two-character escapes stand for exactly the eight characters section 7 of RFC 8259 lists |
| `Grammar.HexIsCodeUnit` | univalue/univalue_read.cpp:17-41 | four digits, in either case, stand for the 16-bit number of their listed values |
| `Lexer.ReadString` | univalue/univalue_read.cpp:172-232 | the string case returns the filtered body and its length, or an error exactly when there is none |
| `Lexer.GetJsonToken` | univalue/univalue_read.cpp:43-237 | token, text and consumed length are those of the token function, on every NUL-terminated buffer |
| `Lexer.StrncmpIsPrefix` | univalue/univalue_read.cpp:88-101 | strncmp against the NUL-terminated buffer is a prefix test on the remaining input |
| `Numbers.ScanExact` | univalue/univalue_read.cpp:113-170 | the scan takes n bytes iff they are a number of section 6 of RFC 8259 followed by nothing that could extend it, or the input is a lone minus |
| `Numbers.LoneMinus` | univalue/univalue_read.cpp:128-129 | a lone minus at the end of input is taken although it is no number |
| `TokenLists.NumberToken` | univalue/univalue_read.cpp:103-170 | a number token is the consumed source text after whitespace, and a number of RFC 8259 or the final lone minus |
| `TokenLists.NumberLexes` | univalue/univalue_read.cpp:103-170 | every RFC 8259 number before the end or a byte that cannot extend a number lexes to exactly itself |
| `TokenLists.EscapedStringLexes` | univalue/univalue_write.cpp:11-27 | a quote, the escaped string and a quote lex, whatever follows, to the string token of that string taking its escaped length and two bytes, iff the string is a fixed point of the filter |
| `TokenLists.LexProgress` | univalue/univalue_read.cpp:46-57 | every token consumes between one byte and all of them; the end marker means exactly that only whitespace is left |
| `TokenLists.LexSkipsSpace` | univalue/univalue_read.cpp:51-52 | leading whitespace changes only the consumed count, by its length |
| `TokenLists.LexAllTokens` | univalue/univalue_read.cpp:43-237 | every token of an input has a text of the grammar, except a lone minus as the very last |
| `Machine.StepKeeps` | univalue/univalue_read.cpp:263-440 | each accepted token keeps the machine invariant and extends what has been read by exactly that token; a result is a parse tree of what was read |
| `Machine.RunSound` | univalue/univalue_read.cpp:251-448 | whatever the machine returns flattens to the tokens it consumed |
| `Machine.RunValue` | univalue/univalue_read.cpp:251-448 | reading the tokens of any value where a value may come delivers that value |
| `Machine.RunExact` | univalue/univalue_read.cpp:251-448 | the machine accepts exactly the token lists of the grammar, with their parse trees |
| `Machine.FlattenInjective` | univalue/univalue_read.cpp:251-448 | no token list has two parse trees |
| `UniValueClass.CheckExpected` | univalue/univalue_read.cpp:271-304 | the bit-mask tests pass exactly the tokens each expectation allows and leave the stated bits |
| `UniValueClass.CommaTestsIdle` | univalue/univalue_read.cpp:361-364 | once a comma has passed the expectation tests with a container open, the last_tok tests hold already |
| `UniValueClass.StepLast` | univalue/univalue_read.cpp:264 | last_tok is a comma exactly when the machine remembers one, and never a comma or an opening bracket after a finished item |
| `UniValueClass.BlockedIsRejected` | univalue/univalue_read.cpp:274-304 | a token the mask tests stop is one the token machine rejects |
| `UniValueClass.UniValue.ApplyBracket` | univalue/univalue_read.cpp:308-347 | the opening and closing cases change mask, stack and tree as the token machine does |
| `UniValueClass.UniValue.ApplySeparator` | univalue/univalue_read.cpp:349-372 | the colon and comma cases change mask, stack and tree as the token machine does |
| `UniValueClass.UniValue.ApplyScalar` | univalue/univalue_read.cpp:374-435 | the keyword, number and string cases (name or value) change mask, stack and tree as the token machine does |
| `UniValueClass.UniValue.ApplyToken` | univalue/univalue_read.cpp:306-439 | the whole switch follows the token machine's step on mask, stack and tree |
| `UniValueClass.UniValue.ReadText` | univalue/univalue_read.cpp:251-448 | the loop over mask, last token and pointer stack terminates and computes the read of the specification, in place, also for the tree left by a failure; its invariant confines the mask between tokens to the five listed values |
| `Reader.StackInvariant` | univalue/univalue_read.cpp:308-331 | between tokens each stack entry above the root is the last element of the values of the entry below, objects below the top have a value per key, and the top object has one key more exactly in the colon and value modes |
| `Reader.AssembleReplace` | univalue/univalue_read.cpp:318-323 | writing through the top pointer changes the tree only at the innermost open container |
| `Reader.ReadExact` | univalue/univalue_read.cpp:251-448 | read succeeds with v iff the input lexes to exactly the tokens of v |
| `Reader.ReadAccepts` | univalue/univalue_read.cpp:251-448 | read succeeds iff the input lexes to the tokens of some value |
| `Reader.ReadWellFormed` | univalue/univalue_read.cpp:251-448 | everything read yields is well-formed, or is the number "-" |
| `Failures.FailedRead` | univalue/univalue_read.cpp:251-448 | a failed read stops at the first token no document has at its place, at a missing or broken token, or behind a whole document; the tree it leaves holds exactly the tokens read before |
| `Grammar.StringBodyExact` | univalue/univalue_read.cpp:172-232 | a string body is read iff it is characters of section 7 of RFC 8259 up to a closing quote, with filter calls for the characters they mean |
| `Grammar.ReadIsJson` | univalue/univalue_read.cpp:251-448 | on bytes: read succeeds with v iff v is what is stored for the syntax tree of a text of the grammar of sections 2 to 7 of RFC 8259 all of whose strings are sound, or the input is whitespace and a lone minus |
| `Grammar.JsonTextRead` | univalue/univalue_read.cpp:251-448 | a text of the grammar is accepted iff every string and name in it consists of whole characters with paired surrogate halves; the tree is then the one of the text with those characters re-encoded |
| `Grammar.MinusIsNoJson` | univalue/univalue_read.cpp:128-129 | whitespace and a lone minus is no text of the grammar |
| `Conformance.Utf8Literal` | univalue/univalue_read.cpp:172-232 | a string written in UTF-8 is always made of whole characters; if its surrogate escapes come in adjacent pairs it is accepted, with the text it means iff every pair has the decisive bit clear |
| `Conformance.Utf8TextRead` | univalue/univalue_read.cpp:251-448 | of the JSON texts in UTF-8, read rejects exactly those with a surrogate escape out of place |
| `Conformance.ProperTextRead` | univalue/univalue_read.cpp:251-448 | a JSON text in UTF-8 whose surrogate escapes come in adjacent pairs is accepted, and each string is stored with the text it means iff all its pairs have the decisive bit clear |
| `Conformance.AcceptedIsJson` | univalue/univalue_read.cpp:251-448 | what read accepts is a text of the grammar iff it is not whitespace and a lone minus |
| `Conformance.LoneHalf` | univalue/univalue_utffilter.h:74-79 | a string holding only an escape for half a pair is JSON in UTF-8 and is rejected |
| `Conformance.LoneHalfRejected` | univalue/univalue_utffilter.h:74-79 | the same at \uDEAD |
| `Conformance.OverlongAccepted` | univalue/univalue_utffilter.h:28-36 | the overlong bytes C0 80 are no UTF-8 and are accepted as NUL |
| `Conformance.BeyondUnicodeAccepted` | univalue/univalue_utffilter.h:28-36 | the bytes F4 90 80 80 lie beyond Unicode and are accepted as they are |
| `Conformance.PairAcross` | univalue/univalue_utffilter.h:24-25 | a pair of escapes with one ASCII character between is accepted, the character first and the pair joined behind it |
| `Conformance.PairAcrossLetter` | univalue/univalue_utffilter.h:24-25 | the same at \ud800x\udc00 |
| `Conformance.EscapedPair` | univalue/univalue_utffilter.h:53-64 | a string of two escapes forming a pair is read as the collated code point, where it means the one of RFC 2781 |
| `Conformance.WrongPlane` | univalue/univalue_utffilter.h:61 | \ud840\udc00 means U+20000 and is read as U+10000 |
| `Grammar.LexemesNumbersEnd` | univalue/univalue_read.cpp:131-166 | in the grammar a number is followed by a comma, a closing bracket or the end |
| `Writer.Write` | univalue/univalue_write.cpp:29-61 | returns the text, or nothing exactly when some object has a key without a value (std::out_of_range); Printing.CompactText and Printing.PrettyText say what the text is, byte by byte |
| `Writer.WriteArray` | univalue/univalue_write.cpp:68-88 | appends brackets around the items, a comma after all but the last, newlines and indentation only when pretty printing |
| `Writer.WriteObject` | univalue/univalue_write.cpp:90-112 | appends braces around the members, with the same separators, newlines and indentation, and a space after the colon only when pretty printing |
| `Writer.IndentStr` | univalue/univalue_write.cpp:63-66 | keeps the text and adds exactly prettyIndent times indentLevel bytes, all of them spaces |
| `Writer.LexText` | univalue/univalue_write.cpp:29-112 | at any indentation, the text of a well-formed value before any byte that ends a number lexes to the value's tokens and then to what follows |
| `Printing.CompactText` | univalue/univalue_write.cpp:29-112 | without pretty printing the text of a value is the spelled tokens of the value and not a byte more, at any level |
| `Printing.CompactOneLine` | univalue/univalue_write.cpp:29-112 | compact text holds no control character, in particular no newline |
| `Printing.PrettyText` | univalue/univalue_write.cpp:63-112 | with pretty printing the text is a list of lines: brackets on their own lines, items one level deeper with a comma after all but the last, each line indented by prettyIndent spaces per level, one space after each colon |
| `Writer.CompactLevel` | univalue/univalue_write.cpp:29-112 | without pretty printing the indentation level leaves no trace |
| `RoundTrip.PrettyPrintIrrelevant` | univalue/univalue_write.cpp:63-112 | all indentations give the same token list, the flattening of the value |
| `RoundTrip.ReadOfWrite` | univalue/univalue_write.cpp:29-112 | for every writable value and indentation, reading the text gives the value back iff it is well-formed or the number "-" |
| `RoundTrip.ReadOfWriteThenSpace` | univalue/univalue_read.cpp:442-445 | whitespace after the text changes nothing |
| `RoundTrip.WriteOfRead` | univalue/univalue_write.cpp:29-112 | whatever was read can be written, reads back as the same value, and writes to the same text again |
| `RoundTrip.ReadImage` | univalue/univalue_read.cpp:251-448 | the values read can produce are exactly the well-formed ones and the number "-" |
| `RoundTrip.TextInjective` | univalue/univalue_write.cpp:29-112 | different well-formed values never share a text |
| `UniValueClass.UniValue.constructor` | univalue/univalue.h:24-27 | a value of the given type and text with no children |
| `UniValueClass.UniValue.Clear` | univalue/univalue.cpp:15-21 | resets all four fields |
| `UniValueClass.UniValue.SetBool` | univalue/univalue.cpp:29-36 | true is stored as the text 1, false as the empty text |
| `UniValueClass.UniValue.SetStr` | univalue/univalue.cpp:86-92 | stores the text unchecked and drops children |
| `UniValueClass.UniValue.SetArray` | univalue/univalue.cpp:94-99 | becomes the empty array |
| `UniValueClass.UniValue.SetObject` | univalue/univalue.cpp:101-106 | becomes the empty object |
| `UniValueClass.UniValue.SetNumStr` | univalue/univalue.cpp:38-55 | stores the text iff its first token is a number, else changes nothing |
| `Integers.NumStrAccepts` | univalue/univalue.cpp:38-44 | every number is taken, and what is taken is one iff the token is the whole string and not a lone minus |
| `Integers.NumStrTrailingText` | univalue/univalue.cpp:38-44 | the text 1x is taken although it is no number |
| `UniValueClass.UniValue.SetInt` | univalue/univalue.cpp:57-73 | always succeeds and stores the decimal text |
| `UniValueClass.UniValue.PushBack` | univalue/univalue.cpp:108-115 | appends to an array, refuses anything else |
| `UniValueClass.UniValue.PushKVUnchecked` | univalue/univalue.cpp:127-131 | appends key and value whatever the type |
| `UniValueClass.UniValue.PushKV` | univalue/univalue.cpp:133-144 | replaces the first match in place or appends; refuses a non-object; only the key that is found needs a value |
| `UniValueClass.UniValue.PushKVs` | univalue/univalue.cpp:146-155 | appends all pairs of another object, stopping with std::out_of_range at a key without a value |
| `UniValueClass.UniValue.GetObjMap` | univalue/univalue.cpp:157-165 | collects the last binding of every key, leaves the map alone for a non-object |
| `UniValueClass.UniValue.FindKeyIndex` | univalue/univalue.cpp:167-177 | finds the first index of a key, or none |
| `UniValueClass.UniValue.CheckObject` | univalue/univalue.cpp:179-195 | true iff an object whose first member under each requested key has the requested type; else the first unmet entry, in map order, decides between false and std::out_of_range |
| `UniValueClass.UniValue.Index` | univalue/univalue.cpp:197-207 | first-match lookup; null if absent or no object, std::out_of_range if the key has no value |
| `UniValueClass.FindValue` | univalue/univalue.cpp:234-241 | first-match lookup without looking at the type; null if absent, std::out_of_range if the key has no value |
| `UniValueClass.LookupIsFirst` | univalue/univalue.cpp:197-207 | both lookups answer from the first occurrence of the key, on any object |
| `Objects.PushRunIsMap` | univalue/univalue.cpp:127-177 | any run of pushKV on an empty object keeps keys distinct with a value each, and findKey, first-match lookup and getObjMap all answer as the updated map |
| `Objects.PushKVEffect` | univalue/univalue.cpp:133-144 | on any object pushKV changes the value under the first occurrence of the key and nothing else, or appends at the end |
| `Objects.PushKVsEffect` | univalue/univalue.cpp:146-155 | pushKVs appends the pairs in their order and leaves the rest alone |
| `Objects.RepresentsLookups` | univalue/univalue.cpp:157-177 | an object with distinct keys answers every lookup from one map |
| `Objects.PushKVsLookups` | univalue/univalue.cpp:146-165 | after pushKVs first-match lookup keeps old bindings while getObjMap takes the appended ones |
| `Objects.ObjMapBinding` | univalue/univalue.cpp:163-164 | the binding collected for a key is its last one |
| `Objects.FindKeyUnique` | univalue/univalue.cpp:167-177 | the index with the key and no earlier occurrence is the one found |
| `Integers.ParsePrechecks` | univalue/univalue_get.cpp:19-28 | true iff non-empty, unpadded and without NUL |
| `Integers.ParseInt32` | univalue/univalue_get.cpp:30-44 | succeeds iff the string denotes an integer in int32 range, whatever the width of long, and returns it |
| `Integers.ParseInt64` | univalue/univalue_get.cpp:46-59 | succeeds iff the string denotes an integer in int64 range, and returns it |
| `Integers.DenotesMeaning` | univalue/univalue_get.cpp:30-59 | a string denotes n iff it is unpadded and without NUL and consists of C whitespace, at most one sign and decimal digits with that value |
| `Integers.NumberDenotes` | univalue/univalue_get.cpp:30-59 | a grammar number denotes an integer iff it has neither fraction nor exponent, and then its digits' value |
| `UniValueClass.UniValue.GetInt` | univalue/univalue_get.cpp:104-112 | returns the int32 the stored text denotes, or throws the stated error |
| `UniValueClass.UniValue.GetInt64` | univalue/univalue_get.cpp:114-122 | returns the int64 the stored text denotes, or throws the stated error |
| `IntegerRoundTrip.StoredInteger` | univalue/univalue.cpp:57-73 | a stored integer is well-formed, survives write and read, and is fetched by get_int64 and get_int iff it fits their range |
| `IntegerRoundTrip.GrammarInteger` | univalue/univalue_get.cpp:104-122 | on any grammar number the getters succeed iff it has no fraction, no exponent and a value in range |
| `Protocol.JSONRPCError` | rpc/protocol.cpp:39-45 | an object of code and message, in this order |
| `Protocol.ErrorHolds` | rpc/protocol.cpp:39-45 | the error has exactly a code, a number denoting the code given, and the message given |
| `Protocol.JSONRPCReplyObj` | rpc/protocol.cpp:21-31 | an object of result, error and id; the result is null when there is an error |
| `Protocol.JSONRPCReply` | rpc/protocol.cpp:33-37 | the reply on one line; if its parts are well-formed, it has a single newline, at its end, and reads back as the reply |
| `Protocol.ReplyLookups` | rpc/protocol.cpp:21-31 | the three keys are distinct and each part is found under its own |
| `NamedArguments.SplitJoins` | rpc/server.cpp:43-44 | the aliases of a pattern hold no bar and joined by bars give the pattern back |
| `NamedArguments.FindAlias` | rpc/server.cpp:43-51 | finds the first alias still in the map |
| `NamedArguments.CollectArguments` | rpc/server.cpp:36-39 | collects the last value supplied for each key |
| `NamedArguments.FillAndPush` | rpc/server.cpp:52-60 | fills the hole with nulls and appends the argument |
| `NamedArguments.TransformNamedArguments` | rpc/server.cpp:28-72 | computes the transformed request or the thrown error of the specification |
| `NamedArguments.HitIsFirstFree` | rpc/server.cpp:42-61 | pattern i takes k iff k is the first of its aliases supplied and not taken by an earlier pattern |
| `NamedArguments.HitsDistinct` | rpc/server.cpp:61 | each key is consumed by at most one pattern |
| `NamedArguments.TransformOutcome` | rpc/server.cpp:41-71 | throws RPC_INVALID_PARAMETER naming a left-over key iff one is left; else the positions end at the last matched pattern, each argument at its pattern's index and null in the gaps |
| `NamedArguments.PlacementUnique` | rpc/server.cpp:41-65 | the positions are determined by the matches |
| `NamedArguments.DisjointSuccess` | rpc/server.cpp:28-72 | with disjoint alias lists the call succeeds iff every key belongs to a pattern and no pattern is given two |
| `Server.JSONRPCRequest.constructor` | rpc/server.cpp:320 | the request is copied |
| `Server.JSONRPCRequest.Parse` | rpc/server.cpp:353-384 | ends as ParseRequest says; Answers.ParseTakes and Answers.ParseFails say what that is |
| `Server.Execute` | rpc/server.cpp:219-247 | ends as Executed says; Answers.ExecutesPlain, ExecutesNamed, ExecutesLeftOver and ExecutesUnknown say what that is |
| `Server.ExecuteThrowsValues` | rpc/server.cpp:233-246 | no std exception leaves execute |
| `Server.JSONRPCExecOne` | rpc/server.cpp:320-341 | returns what Reply says; Answers.RepliesPlain, RepliesNamed, RepliesLeftOver, RepliesUnknown and RepliesUnparsed say what that is |
| `Server.ThirdHandler` | rpc/server.cpp:334-338 | parse ends in a std exception exactly when one of the keys it looks up lacks its value, and the reply is then a parse error with the id known so far |
| `Server.ReadAnswerable` | rpc/server.cpp:353-384 | requests with the shape of read values can be answered, and parse throws no std exception on them |
| `Server.ReplyForm` | rpc/server.cpp:320-341 | every reply has exactly the keys result, error and id, a null result with every error, and the id of its request, or the caller's for a non-object or an id without a value |
| `Server.ReplyErrors` | rpc/server.cpp:353-369 | a non-object is answered with the caller's id and an unknown method with method not found, running no command |
| `Server.ReplyIsWellFormed` | rpc/server.cpp:320-341 | replies to well-formed requests are well-formed when commands return and throw well-formed values and the messages of their std exceptions are normal (filter fixed points) |
| `Server.JSONRPCExecBatch` | rpc/server.cpp:343-350 | writes the array of the replies, one per request in order, on one line ended by a newline; the line reads back |
| `Server.BatchReadsBack` | rpc/server.cpp:343-350 | with such commands, the answer to a well-formed batch reads back as an array of as many replies, each a function of its own request and the caller's request alone |
| `Server.BatchFromText` | rpc/server.cpp:343-350 | the same from the body of the request: whenever it reads as an array |
| `Answers.ParseTakes` | rpc/server.cpp:353-384 | parse succeeds iff the item is an object whose first method is a string and first params are absent, null, an array or an object, no lookup throwing; id, method and params are then exactly those, missing params being the empty array, and the other fields the caller's |
| `Answers.ParseFails` | rpc/server.cpp:353-384 | the code and message of every other case, with the fields set by then |
| `Answers.ExecutesPlain` | rpc/server.cpp:240 | without named parameters the command runs on the request itself; a std exception becomes error -1 with its message |
| `Answers.ExecutesNamed` | rpc/server.cpp:237-238 | with named parameters, all consumed, the command runs on the request with the array of arguments placed by pattern |
| `Answers.ExecutesLeftOver` | rpc/server.cpp:66-69 | with a key left over the error -8 names such a key, whatever the command would have done |
| `Answers.ExecutesUnknown` | rpc/server.cpp:229-231 | an unknown method gives error -32601 |
| `Answers.RepliesPlain` | rpc/server.cpp:324-338 | the reply carries what the command did on the request taken from the item: its result, the value it threw, or error -1 with the message of its std exception, and the item's id |
| `Answers.RepliesNamed` | rpc/server.cpp:324-338 | the same for named parameters, the command running on the positional ones |
| `Answers.RepliesLeftOver` | rpc/server.cpp:330-333 | a left-over named parameter is answered with error -8 naming it |
| `Answers.RepliesUnknown` | rpc/server.cpp:330-333 | an unknown method is answered with error -32601 |
| `Answers.RepliesUnparsed` | rpc/server.cpp:330-338 | an item that does not parse is answered with the error thrown, or with error -32700 and the message of the std exception |
| `Answers.BatchAnswersPlain` | rpc/server.cpp:343-350 | entry i of the batch answer, read back, is what the command of item i did on the request taken from item i |
| `Answers.BatchAnswersNamed` | rpc/server.cpp:343-350 | the same for an item with named parameters |

## Left out

- HTTP server, event loop, timers, authentication cookie and start-up code: calls into libraries with little logic of their own.
- `setFloat`, `get_real`, `ParseDouble`: they depend on C++ stream formatting of doubles.
- `get_bool`, `get_str`, `get_obj`, `get_array`, `getKeys`, `getValues`, `push_backV`, `operator[](size_t)`, `uvTypeName`: one test or one append each.
- `appendCommand`, `listCommands`, the `CRPCTable` constructor and the bodies of the four commands: single map operations and stubs; the command table is any map.
- `HexStr` and `MakeUnique`: unrelated helpers.
- `pushKVs` with an object passed to itself: the loop bound would grow with the object.
- Reallocation, pointer validity and the 32-bit width of indices, indentation and `consumed`: sizes are natural numbers.
- C++ exceptions other than `UniValue` and `std::exception`, such as running out of memory.
- Key order of the `std::map` given to `checkObject`: its entries are a sequence in whatever order it has.
- The message of `std::out_of_range`: a fixed text stands for the library's.
