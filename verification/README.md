# CloudEvents codecs, verified

A Dafny model of the codec core of the Go CloudEvents 1.0.2 library: the immutable event and
its validation, the JSON event format with batches, the HTTP and Kafka protocol bindings, the
loss reports that decide whether a strict encoder may succeed, the Trace Context checkers, and
the Kafka, queue and event-sourcing adapters.

`dafny verify dfyconfig.toml` checks everything.

## What is proved

The library promises that strict encoding is lossless, that every representation change is
reported, and that decoding under limits admits exactly what it should. The main theorems say
when that is so, as equivalences over all events, all inputs and all limits:

- **JSON** (`JsonRoundTrip.JsonReportExact`, `JsonBatch.BatchReportExact`): decoding what was
  encoded gives the same event, payload bytes included, if and only if the report is empty,
  the content type and the data schema are UTF-8, the time survives formatting, and the limits
  admit the event. `JsonNormal.DecodingNormalises` and `BatchNormal.BatchNormalises` go the
  other way: whatever is accepted encodes without loss and is accepted again as it was.
- **HTTP and Kafka binary mode** (`HttpRoundTrip.HttpBinaryExact`,
  `KafkaRoundTrip.KafkaBinaryExact`): the same for headers and body, and for record key,
  nil and empty values and transport headers. `HttpNormal.HttpBinaryNormalises` and
  `KafkaNormal.KafkaBinaryNormalises` go the other way. A body without a content type is read
  as JSON, which the strict binary encoders then refuse; that is the one loss an accepted
  binary message can have.
- **Structured mode** (`StructuredHttpExact`, `KafkaStructuredExact`): metadata headers beside
  a structured event are accepted if and only if they repeat the event's own texts, for any
  headers: for HTTP in any spelling and quoting, for Kafka in any order.
- **Lossy events too** (`JsonImage.ImageExact`, `BinaryImage.HttpImageExact`,
  `BinaryImage.KafkaImageExact`): for every valid event outside the unreported families below,
  lossless or not, what decoding its encoding gives, and that the reports name exactly what differs, field by field and reason by
  reason (`JsonImage.JsonReportNamesChanges`, `BinaryImage.BinaryReportNamesChanges`).
- **Reading arbitrary input** (`JsonGrammar.GrammarExact`, `JsonReading.DecodeExact`,
  `JsonReading.DecodeBatchExact`, `BinaryReading.HttpReads`, `BinaryReading.KafkaReads`): the
  parser accepts exactly the RFC 8259 grammar, and the decoders read an event from any text,
  message or record if and only if it says that event, whatever the spelling: escapes and
  surrogate pairs in strings (`JsonSpelling.BodySpelled`), header names in any case, values
  percent-encoded and quoted in any way (`HttpSpelling.ValueExact`).
- **Order**: a Go map hands out its entries in any order. Every loop over a map is a method
  that picks the next key freely (`:|`) and is proved equal to a function that knows no order,
  so results, reports, early exits and running counts cannot depend on it. What is sorted is in
  dictionary order, put without the comparison the sort uses (`Order.LexLessExact`,
  `OutputOrder.MembersInOrder`, `OutputOrder.HeadersInOrder`, `OutputOrder.ReportsInOrder`).
- **Adapters**: what goes through the Kafka, queue and event-sourcing adapters comes back, the
  reports of the queue and the event store are exact and name exactly what is lost, and what is
  converted, restored or produced is stated field by field for every input.

### Where an empty report is not enough

The code leaves these families out of its reports. Each has a lemma with such an event in
`Unreported.dfy`, and the exact theorems carry the condition that shuts the whole family out:

| case | decoders affected | lemma |
|---|---|---|
| absent data with a declared content type | HTTP | `Unreported.AbsentDataInferred` |
| a content type that begins with `application/cloudevents` | HTTP, Kafka | `Unreported.ForeignContentType` |
| Text data under a content type that is text and JSON, such as `text/json` | HTTP, Kafka | `Unreported.TextReadAsJson` |
| a time that does not survive formatting | JSON, HTTP, Kafka | `Unreported.TimeLost` |
| a data schema that is not UTF-8 | JSON, HTTP, Kafka | `Unreported.SchemaLost` |
| a content type that is not UTF-8 | JSON, Kafka | `Unreported.ContentTypeLost` |

The size check that HTTP makes before decoding an attribute counts the quotes and backslashes
of a quoted string, so a quoted value can be refused although it decodes within the limit.
`HttpAttribute.AdmissionExact` says when the two checks amount to the decoded size, for every
value: exactly when the value is at most three times as long as what it decodes to.
`HttpAttribute.QuotedAdmissionExact` puts that in terms of what is sent: exactly when the two
quotes and the escaping backslashes together are at most twice the plain bytes, or the value is
`""`. Unquoted values are never refused (`HttpAttribute.UnquotedAdmission`);
`HttpAttribute.QuotedAdmissionStricter` is a witness of a quoted value that is.

## How the code is modelled

- A Go string and a byte slice are both `seq<byte>`. Where nil and empty differ (Kafka keys,
  record and header values, queue bodies) a value is an `Option`.
- An operation that can fail answers `None` when it rejects.
- `Env` holds the library calls that are taken as given: media-type parsing, the two URI
  checks, and time formatting and parsing. Encoder and decoder use the same ones. The only law
  the theorems ask of a time is that its formatted text is ASCII; those about headers as the
  encoder writes them ask that the structured and the batch media type parse to themselves, and
  those about content types that are filled in ask the same of `application/json`, `text/plain`
  and `application/octet-stream`.
- Base64, UTF-8, JSON text and strings, percent-encoding, decimal numbers and hexadecimal
  digits are modelled concretely (RFC 4648 sections 3.5, 4 and 5, RFC 3629, RFC 8259 sections
  2 to 8, RFC 3986 section 2.1).
- `Limits` has no defaults; non-positive limits reject as they do in the code.

## Files

| files | what they hold |
|---|---|
| `Bytes`, `Alphabet`, `Utf8`, `Hex`, `Decimal`, `Base64`, `Order` | strings, small codecs, sorting |
| `JsonString`, `JsonText`, `JsonDocument`, `JsonWalk` | JSON literals, parser, printer, depth and duplicate walk |
| `JsonSpelling`, `JsonGrammar` | what string literals mean in any spelling, and the grammar the parser accepts |
| `Event`, `Validation`, `TraceContext`, `Admission` | the event, its validation, Trace Context, limits |
| `Conversion`, `Unreported` | loss reports and what they miss |
| `JsonCodec`, `JsonRoundTrip`, `JsonNormal`, `JsonBatch`, `BatchNormal`, `JsonEncoder` | JSON event format |
| `JsonReading`, `JsonImage` | what any input reads as, and what comes back of any event |
| `Binding`, `BinaryNormal`, `BinaryReading`, `BinaryImage` | what the two bindings share, the same two questions for them |
| `HttpAttribute`, `HttpSpelling`, `HttpHeader`, `HttpBinding`, `HttpRoundTrip`, `HttpNormal` | HTTP binding |
| `KafkaBinding`, `KafkaRoundTrip`, `KafkaNormal`, `KafkaAdapter` | Kafka binding and transport adapter |
| `Adapter`, `QueueAdapter`, `EventSourcing` | adapters with retained state |
| `OutputOrder` | the order of everything that is sorted |

## Model

| member | source | states |
|---|---|---|
| `JsonRoundTrip.JsonReportExact` | conversion.go:33-67 | for every valid event and all limits, decoding the encoded event gives the event back if and only if the JSON report is empty, the unchecked texts are UTF-8, the time survives and the limits admit it |
| `JsonRoundTrip.DecodePrinted` | json.go:165-180 | decoding a printed object is decoding its members, exactly when its size and the nesting of its members are within the limits |
| `JsonRoundTrip.MembersExact` | json.go:181-291 | the members of a valid event decode to it if and only if nothing is lost, its texts are faithful, and attribute and data limits admit it |
| `JsonRoundTrip.ReadData` | json.go:439-487 | the data comes back exactly when its kind fits the content type, it needs no trimming and it is within the data limit |
| `JsonRoundTrip.ReadExtension` | json.go:416-437 | an extension comes back with its kind exactly when it is a String, Boolean or Integer within the limit |
| `JsonImage.ImageExact` | json.go:46-117 | for every valid event outside the unreported families, lossy or not, decoding its encoding gives exactly its image within the limits: undeclared text becomes `text/plain`, JSON loses outer white space, data follows the written content type, other extensions become Strings; or it is rejected |
| `JsonImage.JsonReportNames` | conversion.go:33-67 | each note, with its reason, stands for one difference between the event and its image, each difference has its note, and there is no other note |
| `JsonImage.JsonReportNamesChanges` | conversion.go:33-67 | outside the unreported families and where the limits admit the event, decoding its encoding fails only with data or an extension reported, and otherwise changes the content type, the data or an extension if and only if the report names it, and nothing else |
| `JsonImage.UndeclaredTextReturns` | conversion.go:43-44 | undeclared text comes back with only its content type filled in, as `text/plain` |
| `JsonNormal.DecodingNormalises` | json.go:165-291 | whatever is accepted encodes with an empty report, and its encoding is accepted as the same event if and only if there is room and the time survives |
| `JsonNormal.RawMessages` | json.go:246-256 | raw members carry no white space around them, so trimming them again changes nothing |
| `JsonReading.DecodeExact` | json.go:165-291 | for every input, limits and event: the input decodes to the event if and only if it is one JSON object within the size and depth limits, with distinct names, whose members say exactly that event |
| `JsonReading.DecodeBatchExact` | json.go:321-350 | the same for batches: an array within the limits whose elements say the events in order |
| `JsonReading.NullReadsAbsent` | json.go:181-198 | an optional standard member or extension that is null decodes like one that is not there, up to the number of attributes and the size of its name |
| `JsonGrammar.GrammarExact` | json.go:356-369 | the parser accepts a text, with a value, if and only if the text is written by the RFC 8259 grammar for that value |
| `JsonSpelling.BodySpelled` | json.go:189-198 | the inside of every literal is a well-formed sequence of units: plain characters, the eight short escapes, four hexadecimal digits of either case, surrogate pairs, stray bytes |
| `JsonSpelling.UnescapeSpelled` | json.go:189-198 | every well-formed sequence of units reads as what its units mean, lone surrogates and stray bytes as U+FFFD |
| `JsonSpelling.EscapeWritten` | json.go:57-60 | which unit each character of a text is written as |
| `Utf8.ValidExact` | json.go:189-198 | a text is UTF-8 if and only if it is the bytes of some characters |
| `JsonEncoder.EncodeJSONWithReport` | json.go:46-117 | for every order of the extension map, the same bytes and the same report, or rejection of an invalid event; `ImageExact`, `MembersInOrder` and `EscapeWritten` say what the bytes are |
| `JsonEncoder.EncodeJSON` | json.go:30-39 | text exactly for valid events without losses |
| `JsonEncoder.WriteContainer` | json.go:104-116 | the buffer ends up holding the printed container, separators and brackets included |
| `JsonEncoder.EncodeJSONBatchWithReport` | json.go:133-150 | the array of the encoded events and the report of all prefixed losses in one order, or nothing if any event is invalid |
| `JsonEncoder.EncodeJSONBatch` | json.go:120-129 | an array exactly when every event is valid and without losses |
| `JsonEncoder.DecodeJSON` | json.go:165-291 | computes `DecodeText`, which `DecodeExact` decides for every input |
| `JsonEncoder.CollectExtensions` | json.go:246-275 | for every order of the members the same extensions, or rejection when any one of them is inadmissible |
| `JsonBatch.BatchExact` | json.go:321-350 | a batch comes back as the same events in the same order exactly when each survives alone and the batch limits hold |
| `JsonBatch.BatchReportExact` | json.go:133-150 | the same in terms of the batch report |
| `BatchNormal.BatchNormalises` | json.go:321-350 | whatever batch is accepted has valid events and an empty report, and its encoding is accepted as the same batch if and only if there is room and every time survives and fits |
| `JsonBatch.DecodeJSONBatch` | json.go:321-350 | computes `DecodeBatch`, which `DecodeBatchExact` decides for every input |
| `JsonDocument.PrintedContainer` | json.go:104-116 | parsing a printed container yields exactly its children, names unescaped, with each value's own bytes |
| `JsonDocument.TrimDocument` | conversion.go:35-38 | trimming a JSON text leaves exactly its value without the white space around it |
| `JsonText.ValueMove` | json.go:104-116 | a value parses the same wherever in a text it stands |
| `JsonString.UnescapeEscape` | json.go:57-60 | a UTF-8 text comes back from its literal |
| `JsonString.UnescapeValid` | json.go:189-198 | what a literal decodes to is always UTF-8 |
| `JsonString.EncodedLimitMeaning` | json.go:308-314 | the quotient and remainder comparison is `limit <= 0` or length above six times the limit plus two |
| `JsonString.TwoStageAdmission` | json.go:308-314 | the check before and the check after decoding accept exactly decoded length within a positive limit |
| `JsonWalk.InspectValue` | json.go:371-414 | the recursive walk on a shared cursor accepts what `Walk` accepts and leaves the cursor where `Walk` leaves it |
| `JsonWalk.InspectJSON` | json.go:356-369 | one value and nothing behind it |
| `JsonWalk.WalkExact` | json.go:371-414 | on a value followed by anything, the walk consumes exactly that value's tokens, and accepts if and only if the nesting is within the limit and top-level names are distinct |
| `JsonWalk.DepthExact` | json.go:371-414 | a value is at least `n` deep if and only if `n` brackets stand open within each other |
| `JsonWalk.InspectDocument` | json.go:356-414 | a document passes if and only if it nests no deeper than the limit and a top-level object has distinct names; nested duplicates are ignored |
| `JsonWalk.InspectBatch` | json.go:328-330 | a batch passes one level deeper exactly when every element is within the limit |
| `Base64.DecodeEncode` | attribute.go:60-67 | every byte string comes back from its text |
| `Base64.EncodeDecode` | json.go:445-466 | an accepted text without line breaks is the text of what it decodes to, and the admitted length is exact |
| `Base64.TextsOneToOne` | json.go:458-466 | without line breaks, equal bytes mean equal texts |
| `Base64.DigitsNumber` | attribute.go:60-67 | the digits write in base 64 the number the bytes write in base 256, moved up by the bits that fill the last digit |
| `Base64.TextsWritten` | attribute.go:60-67 | both texts are the digits in their alphabets, the standard one padded to groups of four |
| `Base64.RawURLInjective` | adapters/event-sourcing/event_sourcing.go:190-192 | raw URL-safe base64 is one to one |
| `Event.BinaryAttributeOneToOne` | attribute.go:60-67 | Binary attributes are valid, give their bytes back and correspond one to one with byte strings |
| `Event.IntegerAttributes` | attribute.go:51-58 | Integer attributes exist exactly for 32-bit values, are valid and parse back |
| `Event.ValidIsMade` | validation.go:100-122 | an attribute is valid if and only if one of the seven constructors makes it, of a time only if its text parses back |
| `Event.NameExact` | validation.go:128-138 | a name is valid if and only if it is one or more small letters and digits |
| `Event.CloudStringExact` | validation.go:153-165 | a String is valid if and only if it is the UTF-8 text of characters that are neither controls nor noncharacters |
| `Event.ContextLookup` | json.go:62-90 | each standard name and each extension name finds its own text among the context texts, and absent attributes none |
| `Validation.ValidateAttributes` | validation.go:28-93 | the issue list is the same for every order of the extensions, sorted by field and code, and empty exactly for valid attributes |
| `Validation.IssuesEmpty` | validation.go:28-93 | no issue if and only if identity, optional attributes, every extension and the selected extensions are valid |
| `Validation.IssueExact` | validation.go:28-93 | an issue with a field and a code is in the list if and only if that attribute is wrong in that way |
| `Conversion.JsonConversionReport` | conversion.go:33-67 | the report `JsonReport` for every order of the extensions; `JsonReportNamesChanges` says what it names |
| `Conversion.BinaryConversionReport` | conversion.go:69-92 | the report `BinaryReport` for every order of the extensions; `BinaryReportNamesChanges` says what it names |
| `Conversion.PrefixConversionReport` | conversion.go:119-134 | the array ends up, in place, holding its losses with every field prefixed and every reason kept, sorted by field and reason |
| `Conversion.JsonReportEmpty` | conversion.go:33-67 | the report is empty if and only if the data needs no trimming and fits its content type and no extension changes its kind |
| `Conversion.BinaryReportEmpty` | conversion.go:69-117 | the report is empty if and only if present data has a content type of its kind and every extension is a String |
| `Conversion.BatchReportEmpty` | conversion.go:119-134 | a batch report is empty if and only if each event's report is |
| `Conversion.BatchReportNames` | json.go:133-150 | a batch report holds exactly the notes of its events, each under its event's number |
| `Order.SortEntries` | json.go:101-103 | the result is the one list in dictionary order of the names that fills the same map |
| `Order.LexLessExact` | json.go:101-103 | one text is less than another if and only if it is a proper prefix or has the smaller byte where they first differ |
| `OutputOrder.MembersInOrder` | json.go:101-103 | the members of an encoded event are in dictionary order |
| `OutputOrder.HeadersInOrder` | kafka.go:125-127 | the headers of a record are in dictionary order |
| `OutputOrder.ReportsInOrder` | conversion.go:126-134 | the losses of a report are in dictionary order by field and then by reason |
| `Order.AscendingUnique` | kafka.go:125-127 | an ascending list is determined by the map it fills |
| `Order.NotesUnique` | conversion.go:126-134 | a sorted list of losses or issues is determined by how often it holds each |
| `TraceContext.TraceParentExact` | extensions.go:36-71 | the split check accepts exactly the grammar: small hexadecimal digits with dashes at fixed offsets, neither id all zero, version 00 ending there, version ff invalid |
| `TraceContext.VersionZeroLength` | extensions.go:36-53 | version 00 values are exactly 55 bytes long |
| `TraceContext.ValidTraceState` | extensions.go:73-97 | the split, trim and cut loop with its set of seen keys computes `Accepts` |
| `TraceContext.TraceStateExact` | extensions.go:73-141 | accepted exactly when the text is at most 512 bytes without outer white space and lists at most 32 members, padded or not, with keys and values of their grammars and distinct keys |
| `TraceContext.KeyExact` | extensions.go:99-127 | a key is accepted if and only if it is a letter and key characters, or a tenant and a system around an at sign within their lengths |
| `TraceContext.ValueExact` | extensions.go:129-141 | a value is accepted if and only if it is up to 256 printing characters and spaces without comma and equals sign that do not end in a space |
| `TraceContext.Rejoin` | extensions.go:73-97 | rejoining the trimmed members is accepted again and means the same list |
| `HttpAttribute.EncodeHTTPAttribute` | http.go:127-138 | the loop computes `Encode` |
| `HttpAttribute.UnquoteHTTPAttribute` | http.go:455-483 | the automaton with its escaped flag computes `Unquote` |
| `HttpAttribute.DecodeHTTPAttribute` | http.go:443-453 | unquoting, percent-decoding and the UTF-8 test in one |
| `HttpAttribute.DecodeEncode` | http.go:443-453 | a value comes back from its encoding exactly when it is UTF-8, and is rejected otherwise |
| `HttpAttribute.EncodeOutput` | http.go:127-138 | the output is printable ASCII without a double quote, at most three times as long, with well-formed escapes only |
| `HttpAttribute.DecodeQuoted` | http.go:455-483 | quoting the output with doubled backslashes decodes to the same value |
| `HttpSpelling.ValueExact` | http.go:443-483 | a header value reads as a text if and only if it is a percent-encoding of it, plain or in quotes with any bytes behind backslashes, and the text is UTF-8 |
| `HttpSpelling.EncodeWritten` | http.go:127-138 | each byte is written as itself if it prints and is neither quote nor percent, and otherwise as its two upper-case digits |
| `HttpAttribute.EncodedLimitMeaning` | http.go:417-423 | for machine words the two-word product comparison is the comparison of integers |
| `HttpAttribute.UnquotedAdmission` | http.go:343-352 | for unquoted values the two checks accept exactly decoded length within a positive limit |
| `HttpAttribute.AdmissionExact` | http.go:343-352 | for every value, quoted or not, the two checks amount under all limits to the decoded size if and only if the value is at most three times as long as what it decodes to |
| `HttpAttribute.QuotedAdmissionExact` | http.go:417-423 | for a quoted value that holds if and only if it is empty or two quotes and its escaping backslashes are at most twice its plain bytes |
| `HttpAttribute.QuotedAdmissionStricter` | http.go:343-345 | the witness that the condition can fail: a quoted value that decodes to one byte and is refused at limit one |
| `HttpHeader.SingleContentType` | http.go:425-441 | for every order of the names, no value, the one value, or more than one, whatever the spelling of the names |
| `HttpHeader.NameOfKey` | http.go:410-415 | the canonical header of an attribute is recognised, gives its name back and is not the content type |
| `HttpSpelling.NameExact` | http.go:408-415 | a header names an attribute if and only if it is `ce-` and the name, both in any case |
| `HttpSpelling.KeyWritten` | http.go:95-115 | an attribute is written under `Ce-` and its name with a capital first letter |
| `HttpBinding.DetectHTTPMode` | http.go:268-294 | mode and content type do not depend on the order of the headers; `ModeExact` says which mode a content type selects |
| `HttpRoundTrip.ModeExact` | http.go:283-293 | which media types select which mode, and that only other CloudEvents formats are refused |
| `HttpBinding.CollectHeaders` | http.go:320-354 | the decoded texts, or rejection, do not depend on the order of the headers, in spite of the early exits and the running count |
| `HttpBinding.EncodeHTTPBinary` | http.go:95-125 | one single-valued header per context attribute and the content type, for every order of the extensions; no body for absent data; `HttpImageExact`, `EncodeWritten` and `KeyWritten` say what is sent |
| `HttpBinding.EncodeHTTPWithReport` | http.go:60-93 | headers, body and report of all three modes, or rejection; the round-trip theorems of each mode compose it with the decoder |
| `HttpBinding.EncodeHTTP` | http.go:45-54 | a message exactly when the report is empty |
| `HttpBinding.ValidateStructuredHTTPMetadata` | http.go:196-257 | accepts, in any order, exactly metadata that is distinct, single-valued and equal to the event's texts within the limits |
| `HttpBinding.DecodeHTTP` | http.go:149-194 | the same mode and events, or rejection, for every order of the headers; `HttpReads`, `StructuredHttpExact` and `BatchHttpExact` decide them |
| `HttpRoundTrip.HeadersExact` | http.go:320-354 | headers written for some texts are read back as those texts if they are UTF-8 and within the limits, and rejected otherwise |
| `HttpRoundTrip.HttpBinaryExact` | conversion.go:69-117 | encoding to binary mode and decoding gives the event back if and only if the report is empty, none of the cases it does not look at applies and the limits admit the message |
| `HttpRoundTrip.StructuredMetadataSound` | http.go:196-257 | an accepted structured message carries only metadata that decodes to its event's own texts, each name once |
| `HttpRoundTrip.StructuredHttpExact` | http.go:169-178 | for any headers, however spelled and quoted, the message yields the event if and only if the event survives JSON, the content type selects structured mode, every metadata header decodes to the event's own text with no name twice, and the limits admit it |
| `HttpRoundTrip.StructuredWrittenExact` | http.go:234-257 | for headers as the encoder writes them: accepted if and only if the texts they carry are the event's own and the limits admit them |
| `HttpRoundTrip.BinaryMetadataAttached` | http.go:95-115 | all metadata headers of the binary encoding may be attached to the structured one |
| `HttpRoundTrip.BatchHttpExact` | http.go:179-188 | for any headers a batch message yields its events if and only if the batch survives, the content type selects batch mode, there is no metadata header and the limits admit it |
| `HttpRoundTrip.BatchRoundTrip` | http.go:60-93 | what the encoder writes for a batch decodes to batch mode and the same events if and only if the report is empty, each event is faithful and the limits admit them |
| `HttpRoundTrip.StructuredRoundTrip` | http.go:60-93 | the same for one event in structured mode |
| `BinaryReading.HttpReads` | http.go:320-406 | for every header, body, limits and event: the message decodes in binary mode to the event if and only if its content type, its attribute headers in any spelling and its body say exactly that event |
| `BinaryReading.HeaderTextsExact` | http.go:320-354 | the texts read from headers are exactly those the headers spell, one header each |
| `BinaryReading.JsonMediaExact` | json.go:500-510 | a media type is JSON if and only if the part after its first slash is `json` or ends in `+json` |
| `Binding.ExpectedExact` | http.go:196-232 | the texts that metadata beside a structured event may repeat are exactly what the event says |
| `Binding.AssembleExact` | http.go:355-406 | the context texts of an event make up the event again exactly with its own content type and data, String extensions only and a time that survives |
| `Binding.AssembleEvent` | kafka.go:299-353 | computes `Assemble`, with the extensions in any order |
| `Binding.CollectBoundExtensions` | http.go:366-376 | the same String extensions, or rejection, for every order |
| `Binding.DataKindExact` | http.go:377-394 | the inferred kind is the event's own exactly when the report says so and the content type is not text and JSON at once |
| `BinaryImage.FilledPreserves` | conversion.go:94-103 | the content type that is filled in for undeclared data makes the decoder read the same data |
| `BinaryImage.HttpImageExact` | http.go:95-125 | for every valid event whose content type selects binary mode and whose texts and time survive, lossy or not, what decoding its HTTP binary encoding gives: the content type filled in, the data as that says, Strings for extensions |
| `BinaryImage.KafkaImageExact` | kafka.go:64-129 | the same for Kafka, with key and transport headers |
| `BinaryImage.BinaryReportNames` | conversion.go:69-92 | each note, with its reason, stands for one difference between the event and its image, each difference has its note, and there is no other |
| `BinaryImage.BinaryReportNamesChanges` | conversion.go:69-92 | outside the unreported families and where the limits admit the event, what either binary decoder gives differs from the event in a field if and only if the report names it |
| `BinaryImage.UndeclaredDataReturns` | conversion.go:94-103 | undeclared data comes back over both bindings with only the content type filled in: `application/json`, `text/plain` or `application/octet-stream` |
| `KafkaBinding.EncodeKafkaBinaryHeaders` | kafka.go:99-129 | the one list of headers in dictionary order (`HeadersInOrder`), for every order of the extensions |
| `KafkaBinding.EncodeKafkaWithReport` | kafka.go:64-87 | record and report of both modes; batch mode and invalid events are rejected; absent data is nil, empty data empty; `KafkaImageExact` says what comes back |
| `KafkaBinding.EncodeKafka` | kafka.go:48-57 | a record exactly when the report is empty |
| `KafkaBinding.Partition` | kafka.go:159-180 | every header goes to the content types, to the values of its attribute or to the transport headers, in order, if all are within the limits |
| `KafkaBinding.CollectTexts` | kafka.go:283-298 | the decoded texts, or rejection, for every order |
| `KafkaBinding.DecodeKafkaBinary` | kafka.go:276-353 | computes `DecodedBinary`, which `KafkaReads` decides for every record |
| `KafkaBinding.ValidateStructuredKafkaMetadata` | kafka.go:230-274 | accepts, in any order, exactly single values equal to the event's texts within the limits |
| `KafkaBinding.DecodeKafka` | kafka.go:152-228 | computes `DecodedKafka`, which `KafkaReads` and `KafkaStructuredExact` decide for every record |
| `KafkaRoundTrip.BoundPartition` | kafka.go:159-180 | from headers written for some texts, followed by transport headers, the decoder finds exactly those texts, the content type and the transport headers |
| `KafkaRoundTrip.TransportApart` | kafka.go:174-179 | transport headers change nothing else and keep their order |
| `KafkaRoundTrip.KafkaBinaryExact` | kafka.go:276-353 | event, key and transport headers all come back if and only if the report is empty, none of the cases it does not look at applies, transport names are UTF-8 and the limits admit the record |
| `KafkaRoundTrip.StructuredMetadataSound` | kafka.go:230-274 | an accepted structured record carries only metadata equal to its event's own texts, no name twice |
| `KafkaRoundTrip.KafkaStructuredExact` | kafka.go:203-228 | for any headers in any order and any key the record yields event, key and transport headers if and only if the event survives JSON, the content type selects structured mode, every attribute header has the event's own text with none twice, and the limits admit the record |
| `KafkaRoundTrip.StructuredWrittenExact` | kafka.go:230-274 | for headers as the encoder writes them, with transport headers behind: accepted if and only if the texts they carry are the event's own and the limits admit them |
| `KafkaRoundTrip.BinaryMetadataAttached` | kafka.go:99-119 | all metadata headers of the binary encoding may be attached to the structured one |
| `KafkaRoundTrip.NoMetadata` | kafka.go:80-83 | the structured encoder's headers are the case without metadata |
| `BinaryReading.KafkaReads` | kafka.go:152-353 | for every record, limits and event: the record decodes in binary mode to the event if and only if its content type, its attribute headers and its value, nil and empty apart, say exactly that event |
| `BinaryReading.KafkaModeExact` | kafka.go:184-202 | which media types select which mode |
| `BinaryReading.TransportExact` | kafka.go:162-180 | the transport headers of any record are, in order, those that are neither the content type nor an attribute |
| `HttpNormal.HttpBinaryNormalises` | http.go:320-406 | whatever binary message is accepted makes a valid event, whose report is empty exactly when it has no data or a content type; encoding and decoding it under the same limits gives it back if and only if that is so and its time survives and fits |
| `HttpNormal.ReadTexts` | http.go:320-354 | decoded attribute texts are UTF-8 and within the limits, also in number |
| `KafkaNormal.KafkaBinaryNormalises` | kafka.go:276-353 | the same for records, with key and transport headers |
| `KafkaNormal.PartsCount` | kafka.go:162-180 | content types, distinct attribute names and transport headers together are no more than the headers received |
| `BinaryNormal.AssembledTexts` | kafka.go:299-353 | every context text of an accepted event but its time is one of the texts received |
| `KafkaAdapter.Encode` | adapters/kafka/kafka.go:64-89 | a record exactly when event, mode, key and headers are acceptable, and which one: binding headers first, transport headers behind |
| `KafkaAdapter.Decode` | adapters/kafka/kafka.go:95-108 | the early header count check changes nothing that the binding would accept |
| `KafkaAdapter.TransportConserved` | adapters/kafka/kafka.go:64-108 | consuming what was produced gives back the event, the effective key, the transport headers in order and the broker's state, if and only if none of the unreported cases or limits stands in the way |
| `KafkaAdapter.AcceptsExact` | adapters/kafka/kafka.go:64-89 | a record is produced if and only if the event is valid, the report of the mode is empty, the keys do not contradict each other and no transport header has a name of the binding |
| `KafkaAdapter.KeyExact` | adapters/kafka/kafka.go:64-89 | its key is the partition key of the event, or else the key of the producer |
| `Adapter.PayloadRestored` | internal/adapter/adapter.go:94-120 | a payload that makes data comes back as it was, nil and empty apart, of the kind its content type stands for |
| `Adapter.PayloadRemade` | internal/adapter/adapter.go:94-120 | valid data is remade from its payload exactly when its kind is the one its content type stands for |
| `Adapter.PayloadExact` | internal/adapter/adapter.go:94-120 | which data a payload makes under which content type, for every payload |
| `Adapter.KindExact` | internal/adapter/adapter.go:94-111 | only `application/json` and what ends in `+json` is JSON, and what else begins with `text/` is text |
| `Adapter.AddStringExtensions` | internal/adapter/adapter.go:33-52 | the same event, or rejection, for every order of the additions |
| `Adapter.AddedExtensions` | internal/adapter/adapter.go:33-89 | additions are readable, everything else is kept, and adding again changes nothing |
| `Adapter.AddExact` | internal/adapter/adapter.go:33-52 | adding succeeds, with the event that holds both, if and only if that is a valid event that replaces nothing |
| `Adapter.DataKindLossExact` | internal/adapter/adapter.go:208-229 | on a valid event there is a data kind loss exactly when the payload under its content type would not make the same data again |
| `Adapter.OptionalLossesExact` | internal/adapter/adapter.go:189-204 | the optional losses name exactly those of data schema, subject and time that have a text among the context texts, each once |
| `Adapter.AppendExtensionLosses` | internal/adapter/adapter.go:233-244 | one loss per unselected extension, ascending by name, for every order of the map |
| `Adapter.ExtensionLossesEmpty` | internal/adapter/adapter.go:233-244 | no such loss if and only if every extension is selected |
| `Adapter.ExtensionLossNames` | internal/adapter/adapter.go:233-244 | the extension losses name exactly the extensions that are not selected |
| `QueueAdapter.CollectQueueExtensions` | adapters/queue/queue.go:147-171 | exactly the mapped texts that are not empty become String extensions, or rejection |
| `QueueAdapter.ToCloudEvent` | adapters/queue/queue.go:57-92 | the event `ConvertedExact` describes, and the message itself as state |
| `QueueAdapter.VerifyExtensions` | adapters/queue/queue.go:173-199 | accepts exactly when each mapped extension is what the state retains |
| `QueueAdapter.FromCloudEvent` | adapters/queue/queue.go:98-128 | the message `RestoredExact` describes, and the report `QueueReportNames` describes |
| `QueueAdapter.QueueReversal` | adapters/queue/queue.go:57-199 | restoring a converted message succeeds if and only if the options contradict nothing retained, fills in only identity and job type, and reports exactly the source and a given time |
| `QueueAdapter.QueueReportExact` | adapters/queue/queue.go:98-128 | converting a restored message again gives the same event if and only if the queue takes the message and the report holds nothing but source and time |
| `QueueAdapter.TableExact` | adapters/queue/queue.go:147-199 | both directions use one table: correlation, request and causation id are those of the correlation, the two trace texts those of the trace context, and the tenant the tenant |
| `QueueAdapter.ConvertedExact` | adapters/queue/queue.go:57-92 | which event a message makes, field by field, for every message and options |
| `QueueAdapter.RestoredExact` | adapters/queue/queue.go:98-128 | which message an event and a state restore, field by field |
| `QueueAdapter.QueueReportNames` | adapters/queue/queue.go:123-127 | the report names exactly what the queue does not hold |
| `EventSourcing.StreamSubjectInjective` | adapters/event-sourcing/event_sourcing.go:190-192 | two streams have the same subject if and only if type and id both agree, for all byte strings |
| `EventSourcing.ToCloudEvent` | adapters/event-sourcing/event_sourcing.go:86-126 | the event and state `ConvertedExact` describes, or rejection |
| `EventSourcing.FromCloudEvent` | adapters/event-sourcing/event_sourcing.go:131-185 | the message `RestoredExact` describes, and the report `StoreReportNames` describes |
| `EventSourcing.CarriedText` | internal/adapter/adapter.go:136-154 | in a valid event a mapped text reads back as the text that was put in, and an empty text that was put in cannot be read |
| `EventSourcing.StoreReversal` | adapters/event-sourcing/event_sourcing.go:86-185 | for every converted message: it is restored, with its tenant parsed once more, if and only if it is complete, the parsed tenant parses again and the store takes it; the report is exactly source, data schema and time |
| `EventSourcing.StoreReportExact` | adapters/event-sourcing/event_sourcing.go:131-185 | converting a restored message again, with the event's own source, schema and time, gives the same event if and only if no data kind and no extension is reported and the restored tenant parses to the event's |
| `EventSourcing.BoundToStream` | adapters/event-sourcing/event_sourcing.go:135-141 | no state of another stream or schema version restores anything from the event |
| `EventSourcing.ConvertedExact` | adapters/event-sourcing/event_sourcing.go:86-126 | which event and state a message makes, field by field |
| `EventSourcing.RestoredExact` | adapters/event-sourcing/event_sourcing.go:131-185 | which message an event and a state restore: what is not retained is taken from the event only on trust |
| `EventSourcing.StoreReportNames` | adapters/event-sourcing/event_sourcing.go:176-184 | the report names exactly what the store does not hold |
| `Unreported.AbsentDataInferred` | http.go:377-379 | absent data with a content type: empty report, yet HTTP does not give the event back |
| `Unreported.ForeignContentType` | http.go:283-293 | a CloudEvents content type: empty report, yet neither binding gives the event back |
| `Unreported.TextReadAsJson` | conversion.go:105-117 | Text data under `text/json`: empty report, yet neither binding gives the event back |
| `Unreported.TimeLost` | event.go:130-133 | a time that does not survive: empty reports, yet nothing gives the event back |
| `Unreported.ContentTypeLost` | validation.go:45-49 | a content type that parses but is not UTF-8: empty reports, yet neither JSON nor Kafka gives the event back |
| `Unreported.SchemaLost` | validation.go:50-52 | a data schema that is not UTF-8: empty reports, yet nothing gives the event back |

## Left out

- Media-type, URI and time parsing and formatting: parameters of `Env`, used alike by encoder and decoder.
- Reading bodies, contexts and cancellation: decoding begins with the bytes of the body.
- Error kinds and texts, and which of several errors comes first: an operation accepts with a result or rejects.
- The nesting cap of 10000 in encoding/json itself: documents may nest as deep as the limits allow.
- White space outside ASCII in `bytes.TrimSpace`, and case folding of header names outside ASCII.
- The JSON token walk runs over the tokens of a document that parses; a syntax error, which the walk and the parser both reject, is not followed token by token.
- Aliasing and defensive copies: values are immutable here, so a clone is the value itself.
- `strings.EqualFold` on the long s and the Kelvin sign, which fold to ASCII letters: header names are ASCII.
- Messages of the queue and the event store: their own validation is a parameter, and fields that are only copied are one value of any type.
- The Trace Context and partition key attribute constructors: they add nothing beyond the validation that is modelled.
- `schema.go` and the schema, registry, telemetry, tenancy, correlation, audit, outbox, workflow, stream and delegation adapters: thin wrappers over what is modelled or over code that is not part of the repository.
- HttpAttribute.EncodedLimitMeaning: needs lengths and limits to be machine words, as they are in the code.
- HttpAttribute.AdmissionExact: needs the length of the value to be a machine word; limits are unrestricted.
- HttpAttribute.QuotedAdmissionExact: the same.
