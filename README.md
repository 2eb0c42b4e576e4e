# Template attribute parsing and lowering, in Dafny

This project models the attribute front end of the `maple` template macro,
`maple-core-macro/src/template/attributes.rs`. It covers three stages:

- **Names.** `AttributeName::parse` reads an identifier-shaped tag, keywords
  allowed. It then greedily reads `-segment` pairs, where each segment must be
  a plain, non-keyword identifier. `Display` writes the name back as a dashed
  string.
- **Directives.** `AttributeType::parse` compares the full dashed display of
  the name with `ref`, `on` and `bind`. It yields `Ref`, `Event`, `Bind` or
  `DomAttribute`, or the unknown-directive error. `Attribute::parse` reads a
  directive, `=` and an expression. `AttributeList::parse` reads a
  parenthesised group of them with `parse_terminated`: items separated by
  `,`, with an optional trailing `,`.
- **Lowering.** `Attribute::to_tokens` appends one group of generated code to
  a token stream. Bindings go through the two-row `bind:` property table
  first. An unsupported property appends a compile error and returns early.

## Layout

- `syntax.dfy` (`Syntax`): the tokens the parser sees, the parse errors, and
  a failure-compatible `Result`. It also holds the single-token readers
  borrowed from the parsing library:
  - `Ident::parse_any`, which accepts keywords;
  - `Ident::parse`, which refuses them;
  - `Token![..]` for punctuation;
  - `Expr::parse`, which reads one opaque token.
- `names.dfy` (`Names`): the name parser as a function of the tokens and a
  cursor position. It also holds the `Display` loop as a method, and an
  independent split-at-`-` reading of a dashed string.
- `punctuated.dfy` (`Punctuated`): the library's `parse_terminated`,
  generic over the item parser as the library's own is. It is proved once,
  for any item parser that reads back its own spelling.
- `directives.dfy` (`Directives`): the classifier, one attribute and the
  list, as functions, with their round-trip and error lemmas.
- `parser.dfy` (`Parser`): the parse functions as they run. A `ParseStream`
  class moves its cursor in place. Each method is proved to return exactly
  what the matching specification function returns from the cursor it was
  called at. `ParseAttributeName` keeps the source's `while` loop.
  `ParseAttributeType` compares the display string, as the source does.
- `lowering.dfy` (`Lowering`): the property table and an abstract
  instruction per generated group. `TokenStream` is a class whose `Extend`
  appends. `ToTokens` is the `match` with its early return.
- `scenarios.dfy` (`Scenarios`): concrete inputs read and lowered end to end.

## Behaviour worth knowing

- **A failing attribute fails the whole list.** The list is read with
  `parse_terminated(Attribute::parse)?` (attributes.rs line 201). It stops
  at the first attribute that fails, or at the first missing `,`, and
  returns only that error. No attribute read before it is kept
  (`Directives.TerminatedAtFirstError`, `Directives.TerminatedAtMissingComma`,
  `Scenarios.SecondAttributeFails`, `Scenarios.SecondCommaMissing`).
- **`value=x` is a plain attribute.** Only `bind:value=...` is a binding;
  `value=...` is a `DomAttribute` named `value`.
- **An unsupported bind property is not a parse error.** `bind:foo` parses
  as `Bind("foo")`. The table miss surfaces during lowering, as a
  compile-error group in place of any code (`Lowering.LoweredForm`).
- **The unknown-directive message names the full dashed name.** For
  `data-on:click` the message is ``unknown directive `data-on` ``.
- **The classifier is stated on structure.** The code compares strings.
  `Directives.Classify` instead compares the whole name with `ref`, `on` and
  `bind` taken as tags without segments. `Directives.ClassifyIsByDisplay`
  proves this agrees with the string comparisons as written
  (`ClassifyByDisplay`). `Parser.ParseStream.ParseAttributeType` performs
  the string comparisons themselves.

## Model

| member | source | states |
|---|---|---|
| `Names.ExtensionsAt` | maple-core-macro/src/template/attributes.rs:219-222 | The `while peek(-)` loop as a recursive function. Its own contract is only a bound: on success it consumes two tokens per segment and stays within the input. What it reads is stated by the lemmas below. |
| `Names.NameAt` | maple-core-macro/src/template/attributes.rs:216-226 | The name parse: `parse_any` tag, then the loop. Its own contract is only a bound: on success it consumes the tag and two tokens per segment. `NameAtIff` states what it reads. |
| `Names.ExtensionsAtSound` | maple-core-macro/src/template/attributes.rs:219-222 | When the `-segment` loop succeeds, the tokens it consumed are exactly `-` and a plain identifier per segment, and no `-` follows where it stopped. |
| `Names.ExtensionsAtComplete` | maple-core-macro/src/template/attributes.rs:219-222 | Tokens spelling `-s1 -s2 ...` that are not followed by `-` are read as exactly those segments, ending right after them. |
| `Names.ExtensionsAtRejects` | maple-core-macro/src/template/attributes.rs:220-221 | A `-` that is not followed by a plain identifier fails the whole loop with `Ident::parse`'s error. A keyword is reported as such. No shorter list is returned. |
| `Names.NameAtIff` | maple-core-macro/src/template/attributes.rs:216-226 | Name parsing returns `n` and stops at `q` exactly when the tokens up to `q` spell `n` and no `-` comes next. Both directions: it is greedy and never backtracks. |
| `Names.NameAtRejectsTag` | maple-core-macro/src/template/attributes.rs:218 | A first token that is not identifier-shaped fails immediately with "expected identifier". |
| `Names.NameAtRejectsHyphen` | maple-core-macro/src/template/attributes.rs:218-222 | After a tag and correctly spelled segments, a `-` without a plain identifier after it fails the name parse with that segment's error. |
| `Names.NameString` | maple-core-macro/src/template/attributes.rs:228-239 | The dashed display: the tag, then `-segment` for every segment in order. It has no contract of its own; `DisplayName`, `SplitDisplay` and `DisplayDashFree` state its properties. |
| `Names.DisplayName` | maple-core-macro/src/template/attributes.rs:228-239 | The `Display` loop writes the tag, then `-segment` for every segment in order, and yields the dashed name. |
| `Names.SplitDisplay` | maple-core-macro/src/template/attributes.rs:228-238 | Splitting the display of a name with dash-free parts at every `-` gives back exactly the tag followed by the segments. The display loses nothing and adds nothing. |
| `Names.DisplayDashFree` | maple-core-macro/src/template/attributes.rs:228-238 | A display contains no `-` exactly when the tag contains none and there are no segments. |
| `Names.NameStringIsWord` | maple-core-macro/src/template/attributes.rs:26-39 | The display equals a dash-free word such as `ref`, `on` or `bind` exactly when the name is that word alone. |
| `Directives.ClassifyByDisplay` | maple-core-macro/src/template/attributes.rs:26-52 | The classification once the name is read, as written: the display string is compared with `ref`, then, if `:` follows, with `on` and `bind`. No contract of its own; `ClassifyIsByDisplay` relates it to `Classify`. |
| `Directives.Classify` | maple-core-macro/src/template/attributes.rs:26-52 | The same decision on the name's structure. Its own contract is only a bound: on success the cursor stays within the input and does not move back. |
| `Directives.TypeAt` | maple-core-macro/src/template/attributes.rs:23-54 | `AttributeType::parse`: the name, then the classification. Its own contract is only a bound: on success it consumes at least one token. The lemmas below state each case. |
| `Directives.AttributeAt` | maple-core-macro/src/template/attributes.rs:62-70 | `Attribute::parse`: directive, `=`, expression. Its own contract is only a bound: on success it consumes at least three tokens. |
| `Directives.ClassifyIsByDisplay` | maple-core-macro/src/template/attributes.rs:25-53 | The structural classifier agrees, on every name and cursor, with the comparisons of the display string as written. |
| `Directives.TypeAtRef` | maple-core-macro/src/template/attributes.rs:25-29 | A name displaying as `ref` gives `Ref` and consumes nothing after the name, not even a following `:`. |
| `Directives.TypeAtEvent` | maple-core-macro/src/template/attributes.rs:30-38 | `on` followed by `:` consumes the colon and gives `Event` with the next identifier, keyword or not. Without one it fails with "expected identifier". |
| `Directives.TypeAtBind` | maple-core-macro/src/template/attributes.rs:39-44 | `bind` followed by `:` consumes the colon and gives `Bind` with the next identifier, keyword or not. Without one it fails with "expected identifier". |
| `Directives.TypeAtUnknownDirective` | maple-core-macro/src/template/attributes.rs:45-48 | Any other name followed by `:`, dashed names included, fails with the unknown-directive error naming the full dashed display. |
| `Directives.TypeAtDomAttribute` | maple-core-macro/src/template/attributes.rs:50-51 | With no `:` after it, a name other than `ref` gives `DomAttribute` carrying the parsed name unchanged, segments included. |
| `Directives.TypeAtSound` | maple-core-macro/src/template/attributes.rs:23-54 | Every successful classification comes from one of the four cases above, read off the tokens: the comparison that held and the tokens consumed. |
| `Directives.TypeAtRoundTrip` | maple-core-macro/src/template/attributes.rs:23-54 | The spelling of any directive followed by `=` reads back as that directive. The one exception is a plain attribute named `ref`, which reads as `Ref`. |
| `Directives.AttributeAtRoundTrip` | maple-core-macro/src/template/attributes.rs:62-70 | `directive = expr` reads back as that attribute whatever follows it, and ends right after the expression. |
| `Directives.AttributeAtReadsBack` | maple-core-macro/src/template/attributes.rs:62-70 | The attribute parser meets what the sequence reader needs of its item parser: it reads back the spelling of every readable attribute. |
| `Directives.TerminatedFrom` | maple-core-macro/src/template/attributes.rs:201 | `parse_terminated(Attribute::parse)` from a cursor. Its contract states that success consumes the whole content. |
| `Directives.TerminatedAt` | maple-core-macro/src/template/attributes.rs:201 | The group's whole content read as a terminated attribute sequence. Its contract states that success consumes the whole content. |
| `Directives.ListAt` | maple-core-macro/src/template/attributes.rs:196-207 | `AttributeList::parse`: a group, read to its end. Its contract states that success moves the cursor past exactly the one group. |
| `Directives.TerminatedAtRoundTrip` | maple-core-macro/src/template/attributes.rs:201 | Attributes joined by `,`, with or without a trailing `,`, read back as the same attributes in source order, with the content consumed. |
| `Directives.ListAtRoundTrip` | maple-core-macro/src/template/attributes.rs:196-207 | A parenthesised group spelling a list reads back as that list, and the cursor moves past the group. |
| `Directives.TerminatedAtFirstError` | maple-core-macro/src/template/attributes.rs:201 | Good attributes, each followed by `,`, and then one that fails: the whole list fails with that attribute's own error, and none of the good ones is returned. |
| `Directives.TerminatedAtMissingComma` | maple-core-macro/src/template/attributes.rs:201 | After any number of good attributes, each followed by `,`, an attribute followed by anything other than `,` or the end fails the whole list with "expected `,`". |
| `Directives.TerminatedAtSound` | maple-core-macro/src/template/attributes.rs:201 | Converse of the round trip: whatever content reads successfully is attributes read one after the other, separated by `,`, with at most one trailing `,` and nothing else. A leading, doubled or missing `,` is never accepted. |
| `Directives.ListAtSound` | maple-core-macro/src/template/attributes.rs:196-207 | A list that reads successfully is one parenthesised group whose content reads, as `TerminatedAtSound` states, as exactly the returned attributes. |
| `Punctuated.Terminated` | maple-core-macro/src/template/attributes.rs:201 | The sequence reader succeeds only after consuming the whole content. |
| `Punctuated.TerminatedReadsAll` | maple-core-macro/src/template/attributes.rs:201 | For any item parser: items read one after another, each but the last followed by `,`, the last optionally so, are exactly what the sequence reader returns. |
| `Punctuated.TerminatedFirstError` | maple-core-macro/src/template/attributes.rs:201 | For any item parser: the first item that fails, after items each followed by `,`, is the result of the whole sequence. |
| `Punctuated.TerminatedAfterEach` | maple-core-macro/src/template/attributes.rs:201 | For any item parser: after items each followed by `,`, the reader continues where they end, and the items come in front of whatever it returns from there, success or failure. |
| `Punctuated.TerminatedSound` | maple-core-macro/src/template/attributes.rs:201 | For any item parser, the converse of `TerminatedReadsAll`: every success of the reader is a reading item by item, `,` between items and an optional trailing `,`. |
| `Punctuated.SpelledRoundTrip` | maple-core-macro/src/template/attributes.rs:201 | For any item parser that reads back its items' spellings: the joined spelling of a sequence reads back as that sequence, in order. |
| `Punctuated.EachWithCommaFirstError` | maple-core-macro/src/template/attributes.rs:201 | For any such item parser: items spelled each with `,`, followed by an item that fails, fail the sequence with that item's error. |
| `Punctuated.EachWithCommaThen` | maple-core-macro/src/template/attributes.rs:201 | For any such item parser: items spelled each with `,` at the start of the input are put in front of whatever the reader returns after them. |
| `Parser.ParseStream.ParseAnyIdent` | maple-core-macro/src/template/attributes.rs:218 | Reads an identifier-shaped token, keyword or not, and advances past it; otherwise "expected identifier". |
| `Parser.ParseStream.ParseIdent` | maple-core-macro/src/template/attributes.rs:221 | Reads a plain identifier and advances. A keyword, or anything else, fails with its own error. |
| `Parser.ParseStream.ParsePunct` | maple-core-macro/src/template/attributes.rs:31 | Reads the required punctuation token and advances past it; otherwise fails with "expected" that token. Used for `-`, `:`, `=` and `,` (lines 31, 66, 201, 221). |
| `Parser.ParseStream.ParseExpr` | maple-core-macro/src/template/attributes.rs:67 | Reads the value expression, one opaque token, and advances; otherwise "expected expression". |
| `Parser.ParseStream.ParseAttributeName` | maple-core-macro/src/template/attributes.rs:216-226 | The `while peek(-)` loop returns the same name, with the cursor at the same place, as the name specification; on failure it returns the same error. |
| `Parser.ParseStream.ParseAttributeType` | maple-core-macro/src/template/attributes.rs:23-54 | The string comparisons as written return the same directive and cursor, or the same error, as the classifier specification. |
| `Parser.ParseStream.ParseAttribute` | maple-core-macro/src/template/attributes.rs:62-70 | Directive, `=`, expression, in that order, agreeing with the attribute specification. |
| `Parser.ParseStream.ParseTerminated` | maple-core-macro/src/template/attributes.rs:201 | The library's reading loop (stop when empty, read an item, stop when empty, read `,`) agrees with the sequence specification from the cursor it starts at. |
| `Parser.ParseStream.ParseAttributeList` | maple-core-macro/src/template/attributes.rs:196-207 | Opens a stream on the group's content, reads it to its end and steps past the group, agreeing with the list specification. |
| `Lowering.ToTokens` | maple-core-macro/src/template/attributes.rs:72-189 | Appends exactly one group for the attribute and leaves what the stream held untouched. This includes the bind case's early return after its error. |
| `Lowering.TokenStream.Extend` | maple-core-macro/src/template/attributes.rs:80 | `extend` appends its group after the existing contents. |
| `Lowering.BindProperty` | maple-core-macro/src/template/attributes.rs:110-123 | The bind property table. No contract of its own; `BindPropertyTable` states it holds exactly two rows. |
| `Lowering.Lowered` | maple-core-macro/src/template/attributes.rs:77-187 | The group appended for one attribute. No contract of its own; `LoweredForm`, `LoweredKeepsExpr`, `LoweredBinding` and `LoweredAttributeName` state its properties, and `ToTokens` is proved to append it. |
| `Lowering.BindPropertyTable` | maple-core-macro/src/template/attributes.rs:110-123 | The table is closed: `value` gives (`input`, string) and `checked` gives (`change`, boolean), each in both directions. Every other property has no row. |
| `Lowering.LoweredForm` | maple-core-macro/src/template/attributes.rs:77-187 | Each form lowers to its own kind of group, in both directions. Only a bind of an unsupported property lowers to an error, whose message names the property. |
| `Lowering.LoweredKeepsExpr` | maple-core-macro/src/template/attributes.rs:78-186 | Every code group carries the attribute's expression unchanged. |
| `Lowering.LoweredBinding` | maple-core-macro/src/template/attributes.rs:103-178 | A supported binding sets the property as written and listens on the table's event, with the table's value kind. |
| `Lowering.LoweredAttributeName` | maple-core-macro/src/template/attributes.rs:78-92 | The attribute the effect sets is named by the dashed display of the parsed name, which splits back into the tag and segments. |
| `Scenarios.DisplayExamples` | maple-core-macro/src/template/attributes.rs:228-238 | `a`, `a-b` and `a-b-c` display exactly as written. |
| `Scenarios.DashedDirectiveIsUnknown` | maple-core-macro/src/template/attributes.rs:28-48 | `data-on:click` is the unknown directive `data-on`, not an event. |
| `Scenarios.RefPrefixIsDomAttribute` | maple-core-macro/src/template/attributes.rs:28-51 | `ref-x` is a plain attribute named `ref-x`. |
| `Scenarios.RefIgnoresColon` | maple-core-macro/src/template/attributes.rs:28-29 | `ref:x` is `Ref`, and the cursor stays on the `:`. |
| `Scenarios.KeywordSegmentFails` | maple-core-macro/src/template/attributes.rs:221 | `data-type`, where `type` is a keyword, fails with the keyword error instead of returning `data`. |
| `Scenarios.KeywordEventAccepted` | maple-core-macro/src/template/attributes.rs:34 | `on:type` is the event `type`: the qualifier may be a keyword. |
| `Scenarios.UnsupportedBind` | maple-core-macro/src/template/attributes.rs:110-122 | `bind:foo = s` parses, and lowers to the unsupported-property error alone. |
| `Scenarios.SampleList` | maple-core-macro/src/template/attributes.rs:196-207 | `(bind:value = name, on:click = handler, data-id = id, ref = node,)` reads back as those four attributes, in order. |
| `Scenarios.SampleLowered` | maple-core-macro/src/template/attributes.rs:77-187 | The four sample attributes lower, in order, to a binding on `value`/`input`/string, an event registration for `click`, an effect setting `data-id`, and a node-ref assignment. |
| `Scenarios.SecondAttributeFails` | maple-core-macro/src/template/attributes.rs:201 | `(data-a = x, b c)` fails with "expected `=`", although the first attribute is good. |
| `Scenarios.SecondCommaMissing` | maple-core-macro/src/template/attributes.rs:201 | `(a = x, b = y c)` fails with "expected `,`" at the second attribute, although both attributes are good. |
| `Scenarios.DoubledCommaFails` | maple-core-macro/src/template/attributes.rs:201 | `(a = x,, b = y)` fails with "expected identifier" where the second `,` stands. |

## Left out

- Spans are not modelled. Errors carry their message parts only, and the
  parsing library's own wording is approximated. The unknown-directive and
  unsupported-bind messages are the file's own.
- An expression is one opaque token, because `Expr::parse` belongs to the
  parsing library. A missing expression is "expected expression".
- The internals of the parsing library are not modelled: stream lookahead,
  `parenthesized!`, and the punctuation that `Punctuated` stores beside the
  values. The list keeps the attribute values only.
- A `Group` is always a parenthesised group. Other delimiters are not
  modelled, and any non-group token gives "expected parentheses".
- The keyword list is not modelled. The tokenizer reads `type` or `ref` as
  an ordinary identifier; it is the parsing library's `Ident::parse` that
  rejects a keyword by its text, and `Ident::parse_any` (lines 34, 40 and
  218) accepts it. The model's tokens carry that decision already made
  (`Keyword` versus `Ident`).
- The cursor position after a failed parse is left unspecified. The source
  abandons the stream on `?`.
- Generated code is abstracted to one instruction per group. Each instruction
  carries what the group depends on: names, event, property, value kind and
  the expression. The kind-dependent fragments are determined by the value
  kind and are not spelled out: the signal's type, and the `JsValue`
  conversions in each direction.
- The runtime behaviour of the generated code is not modelled. This covers
  effect scheduling, `Reflect`/`JsValue` conversions, `event.target()`, and
  any question of feedback between a binding's effect and its listener.
- Lowering a whole list is left to callers outside this file. The model
  states one `to_tokens` call.
- Names.SplitDisplay and Lowering.LoweredAttributeName require dash-free
  tag and segment texts, because the token type does not itself forbid `-`
  inside an identifier's text the way a real tokenizer does.
- Directives.TypeAtRoundTrip, Directives.AttributeAtRoundTrip and the list
  round trips exclude a plain attribute named exactly `ref`, because the
  source reads those tokens as the `Ref` directive instead.
