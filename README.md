# dprint-plugin-yapf worker protocol, in Dafny

This project models the worker side of the wire protocol between the dprint
host and the yapf plugin (`main.py`). The worker reads requests on
standard input and answers them on standard output. The model is schema
version 3, the only version in `main.py`, in which a sentinel closes every
request and every response. It proves what the protocol promises:

- **Bytes** (`bytes.dfy`): the big-endian 32-bit codec, which is a
  bijection onto 4-byte words, and the sentinel `FF FF FF FF`, which is
  the encoding of 0xFFFFFFFF and only of that value.
- **Chunking** (`chunking.dfy`): the chunked transfer of a variable-length
  payload as a log of reads and writes. The sender writes the length,
  then the first chunk of at most 1024 bytes without waiting, then waits
  for one ready signal before each later chunk. The receiver mirrors
  this. The number of ready signals is ceil(n/1024) − 1 for a non-empty
  payload of n bytes and 0 for an empty one.
- **Frames** (`frames.dfy`): the byte layout of each response (success,
  integer, string, failure, changed text).
- **Transport** (`transport.dfy`): class `Pipe`, the worker's two streams.
  `inbound` is the standard input with a read `cursor`; `outbound` is the
  standard output, which only grows; a ghost `log` records every read and
  write. Its methods are `write_int`, `read_int`, `strict_read`,
  `strict_write`, the two chunked-transfer loops (the receiver filling an
  `array` in place) and the response senders. Each is proved against the
  functions above.
- **Config** (`config.dfy`): a JSON value as the worker receives it
  (`Json`), and a JSON object as an insertion-ordered dictionary, like a
  Python `dict`. It covers key translation (`get_dprint_to_yapf_config`),
  the three-way merge with `dict.update` (`get_resolved_config`) and the
  style text (`get_style_config_from_config`). Translation and the style
  text are loop methods, each proved equal to a recursive function. The
  merge is a straight-line method that translates the three
  configurations in turn and is proved equal to the function `Resolved`.
  The properties are lemmas about these functions.
- **Dispatch** (`dispatch.dfy`): one turn of the message loop, as a
  function `Serve` of the input bytes, the position and the two
  configurations, together with the configuration change it makes. Class
  `Session` holds `global_config` and `plugin_config`, performs a turn on a
  `Pipe`, and is proved to agree with `Serve`.
- **Protocol** (`protocol.dfy`): what `Serve` does with each well-formed
  message the host can send, and how a turn can end.

The JSON parser, the UTF-8 check, `FormatCode`, the traceback text and
the two constant documents are fields of an `Env` value, so every lemma
holds for every choice of them.

A fault raised while a request's fields are read (a field that is not
UTF-8 or not JSON) leaves the rest of that request unread. When the fault
is in the request's last field (the configuration of kinds 4 and 5, the
per-request configuration of kind 7), only the sentinel is left: the
failure answer's ready signals, if it needs any, are taken from the
sentinel on, and when it needs none the next turn reads the sentinel as a
message of kind 0xFFFFFFFF and answers a second failure
(`Protocol.RejectedConfigThenSentinel`,
`Protocol.RejectedExtraThenSentinel`). When a kind 7 file path or file
text is not UTF-8, the fields after it are unread as well, and the next
turn reads the following field's length word as a message kind and its
payload as what comes after (`Protocol.PathRejectedThenTextLength`,
`Protocol.TextRejectedThenExtraLength`).

Where the sentinel is not found, the code as written and the intended
behaviour differ (see "## Findings"). The model carries both as a
`Policy`: `Stop` is the intended behaviour and is what `Session` performs;
`Report` is the code as written.

## Model

| member | source | states |
|---|---|---|
| Bytes.EncodeU32 | main.py:24-25 | `write_int` emits exactly four bytes |
| Bytes.DecodeU32 | main.py:28-31 | `read_int` yields a value below 2^32 |
| Bytes.DecodeEncode | main.py:24-31 | reading back the four bytes written for any v < 2^32 gives v |
| Bytes.EncodeDecode | main.py:24-31 | any four bytes are the encoding of the value they decode to, so the codec is a bijection |
| Bytes.EncodeInjective | main.py:24-25 | two values have the same encoding if and only if they are equal |
| Bytes.SentinelIsWord | main.py:34-35 | the sentinel is the encoding of 0xFFFFFFFF and of no other value |
| Bytes.SentinelCheck | main.py:38-44 | four bytes are the sentinel if and only if they decode to 0xFFFFFFFF |
| Chunking.TurnsCount | main.py:60-70 | the chunk loop from `index` runs ceil((n − index)/1024) times, or 0 times once `index` ≥ n |
| Chunking.LoopTurnsAreReadies | main.py:60-70 | the sender's and the receiver's loops both turn `ReadyCount(n)` times, once for each chunk after the first |
| Chunking.ReadyCountClosed | main.py:54-70 | the number of ready signals is ceil(n/1024) − 1 for n > 0 and 0 for n = 0 |
| Chunking.SendLog | main.py:54-70 | the sender's log: the length, then the first chunk without waiting, then for each later chunk one ready signal read and the chunk written; its properties are `SendLogWire` and `SendLogPaced` |
| Chunking.RecvLog | main.py:109-130 | the receiver's log: the length, then for a non-empty payload the first chunk, then for each later chunk one ready word written and the chunk read; its properties are `RecvLogWire` and `SendRecvMirror` |
| Chunking.SendLogPuts | main.py:54-70 | the sender writes exactly the length followed by the payload |
| Chunking.SendLogGets | main.py:60-63 | the sender reads exactly the ready signals it is given |
| Chunking.SendLogWire | main.py:54-70 | everything the sender writes is the length followed by the payload, and everything it reads is the ready signals |
| Chunking.SendLogPaced | main.py:54-70 | the first chunk, `p[..min(n,1024)]`, goes out before any read; ready signal j comes right before chunk j+1, which is the non-empty slice `[1024(j+1), min(1024(j+2), n))` of at most 1024 bytes |
| Chunking.RecvLogWire | main.py:109-130 | everything the receiver reads is the length followed by the payload, and it writes exactly `ReadyCount(n)` ready words of value 0 |
| Chunking.SendRecvMirror | main.py:54-130 | for a non-empty payload, the receiver's log is the sender's log with every read and write swapped |
| Frames.SuccessResponse | main.py:73-76 | `send_success`: status 0, then the sentinel; its shape is stated by `FixedResponseShapes` |
| Frames.IntResponse | main.py:87-91 | `send_int`: status 0, the value, the sentinel; its shape is stated by `FixedResponseShapes` |
| Frames.StringResponse | main.py:94-99 | `send_string`: status 0, the string as a variable field, the sentinel; its shape is stated by `FieldResponseShapes` |
| Frames.FailureResponse | main.py:79-84 | `send_failure`: status 1, the diagnostic as a variable field, the sentinel; its shape is stated by `FieldResponseShapes` |
| Frames.ChangedResponse | main.py:278-283 | a changed text: status 0, the flag 1, the new text as a variable field, the sentinel; its shape is stated by `FieldResponseShapes` |
| Frames.VariableRoundTrip | main.py:54-57 | a length-prefixed field is read back as exactly its payload, whatever follows it |
| Frames.FixedResponseShapes | main.py:73-91 | `send_success` is status 0 then the sentinel; `send_int` is status 0, the value, the sentinel; no status can be mistaken for the sentinel |
| Frames.FieldResponseShapes | main.py:79-99 | `send_string` and `send_failure` are status 0 or 1, the payload as a field and the sentinel; a changed-text answer adds the flag 1 before the field |
| Transport.Pipe.StrictWrite | main.py:47-51 | the view is appended to the output and logged, and the input is untouched |
| Transport.Pipe.WriteInt | main.py:24-25 | the four bytes of v are appended to the output |
| Transport.Pipe.ReadInt | main.py:28-31 | with four bytes pending, the value they encode is returned and the cursor advances by 4; otherwise the read fails |
| Transport.Pipe.WriteSuccessBytes | main.py:34-35 | the sentinel is appended to the output |
| Transport.Pipe.ReadSuccessBytes | main.py:38-44 | four bytes are consumed (or what is left); the result is true if and only if they are the sentinel |
| Transport.Pipe.StrictRead | main.py:102-106 | on success, exactly `to − from` pending bytes land in `buf[from..to]` and the rest of `buf` is unchanged; on a short read it fails |
| Transport.Pipe.SendNextChunk | main.py:61-70 | one turn of the sender's loop: it reads one ready word, then writes the next chunk, keeping the sender's invariant |
| Transport.Pipe.WriteVariableData | main.py:54-70 | when enough ready words are pending, the output grows by the length and the payload, and the log is exactly `SendLog` over the ready words read; otherwise it fails |
| Transport.Pipe.RecvNextChunk | main.py:120-128 | one turn of the receiver's loop: it writes one ready word, then reads the next chunk into the buffer, keeping the receiver's invariant |
| Transport.Pipe.FillBuffer | main.py:113-128 | the buffer ends up holding exactly the n payload bytes that follow the length; one ready word is written for each later chunk; the log is `RecvLog` |
| Transport.Pipe.FillRest | main.py:118-128 | the receiver's loop after the first chunk has the same outcome as `FillBuffer` |
| Transport.Pipe.ReadVariableData | main.py:109-130 | succeeds exactly when the whole field is pending; then it returns its payload, consumes 4 + n bytes and writes `ReadyCount(n)` ready words |
| Transport.Pipe.SendSuccess | main.py:73-76 | the output grows by the success response, and the input is untouched |
| Transport.Pipe.SendInt | main.py:87-91 | the output grows by the integer response |
| Transport.Pipe.SendString | main.py:94-99 | when enough ready words are pending, the output grows by the string response and `ReadyCount(n)` words are consumed |
| Transport.Pipe.SendFailure | main.py:79-84 | the same as `SendString`, for the failure response with status 1 |
| Transport.Pipe.SendChanged | main.py:278-283 | the same, for status 0, flag 1, the new text and the sentinel |
| Transport.PipeRoundTrip | main.py:54-70 | the receiver reads back exactly the payload the sender wrote, and the ready words the receiver writes are exactly those the sender consumes |
| Config.Translated | main.py:165-181 | the translation of a JSON object, entry by entry in key order; its properties are `TranslatedKeys`, `TranslatedValue` and `TranslatedLowerCase` |
| Config.TranslatedValid | main.py:164-181 | the translated configuration is a well-formed dictionary |
| Config.TranslateEntries | main.py:165-181 | the loop over the keys of an object builds exactly `Translated(config)` |
| Config.DprintToYapf | main.py:164-181 | `get_dprint_to_yapf_config` on any JSON value gives exactly `Translation(config)`: the translated object, the empty dictionary, or `None` where Python raises |
| Config.TranslationOf | main.py:164-181 | an object is translated entry by entry; an empty string, or an array whose every element is "newLineKind", translates to the empty dictionary; every other string or array, and every number, boolean or null, raises; a result is always a well-formed dictionary |
| Config.TranslatedKeys | main.py:164-181 | a key is in the translation if and only if some entry translates to it: `lineWidth`/`indentWidth`/`useTabs` with a non-None value become `column_limit`/`indent_width`/`use_tabs`, `newLineKind` is dropped, every other key is lower-cased |
| Config.TranslatedValue | main.py:164-181 | a translated key holds, unchanged, the value of the last entry that translates to it |
| Config.TranslatedOrder | main.py:165-181 | the translated dictionary lists each key once, exactly the keys some entry is stored under, and in the order of the first entry stored under each, so a later entry with the same target keeps the earlier place |
| Config.TranslatedLowerCase | main.py:164-181 | every translated key is one of the three yapf names or lower-case, and never one of the four dprint names |
| Config.LowerIsLowerCase | main.py:180 | lower-casing leaves no upper-case letter |
| Config.Updated | main.py:186-188 | `dict.update` as a function: the entries of the second dictionary assigned in order; its properties are `UpdatedValues` |
| Config.UpdatedValues | main.py:186-188 | `dict.update`: every key of the second dictionary takes its value, the other keys keep theirs; the first dictionary's keys keep their order and the new keys follow in the second dictionary's order |
| Config.MergedValues | main.py:185-188 | updating an empty dictionary with three well-formed ones keeps exactly their keys, a later one winning on a collision |
| Config.Resolved | main.py:184-189 | `get_resolved_config` as a function: the three translations merged in order, or `None` when one of them raises; its properties are `ResolvedValues` and `ResolvedLookup` |
| Config.ResolvedValues | main.py:184-189 | the merge exists if and only if all three configurations translate; it is then the translated global map overwritten by the translated plugin map, then by the translated override map |
| Config.GetResolvedConfig | main.py:184-189 | the method translates the three configurations in turn and merges them, giving `None` as soon as one translation raises; the result is exactly `Resolved(...)` |
| Config.ResolvedLookup | main.py:184-189 | a key is in the merge if and only if it is in one of the three maps; its value comes from the override map first, then the plugin map, then the global map |
| Config.StyleText | main.py:192-201 | the style text as a function: "{", the entries `key: value` joined by ", ", "}"; its shape is stated by `StyleTextShapes` |
| Config.GetStyleConfig | main.py:192-201 | the loop builds exactly `StyleText(config)` |
| Config.StyleTextShapes | main.py:192-201 | an empty dictionary gives `{}`; a single entry gives `{k: v}`; each further entry is appended after `", "` |
| Dispatch.ReadText | main.py:133-135 | reads one field: the worker halts when the field is incomplete; otherwise the result is its payload, the cursor is just after it, one ready word was written per later chunk, and a payload that is not UTF-8 is the `NotUtf8` fault |
| Dispatch.ReadConfig | main.py:252-256 | reads one configuration field as `ReadText` does and parses it; an accepted field yields the parsed JSON value, which need not be an object; a field that is not UTF-8 gives the `NotUtf8` fault and one that is not JSON the `NotJson` fault |
| Dispatch.AwaitSentinel | main.py:38-44 | succeeds if and only if the sentinel is next; otherwise the worker halts |
| Dispatch.AnswerClose | main.py:219-222 | kind 8 does what `CloseStep` says: it reads the sentinel and closes without writing |
| Dispatch.AnswerVersion | main.py:223-225 | kind 0 does what `VersionStep` says: it reads the sentinel and answers schema version 3 |
| Dispatch.AnswerString | main.py:226-250 | kinds 1, 2, 3 and 6 do what `AnswerStep` says: the sentinel, then the string answer |
| Dispatch.AnswerFormatted | main.py:273-283 | the formatter's answer as `FormattedStep` says: 0 for unchanged text, flag 1 and the new text for changed text, the fault for a formatter failure |
| Dispatch.AnswerStyled | main.py:268-283 | does what `StyledStep` says: when one of the three configurations cannot be translated, the `Untranslatable` fault with nothing written; otherwise the formatter's answer under the resolved style |
| Dispatch.Mismatch | main.py:38-44 | the four bytes where a sentinel belongs are something else: as written the `TypeError` raised while building the exit message, answered by the `except` clause once the word is consumed; as intended the worker exits; the two agree wherever the intended one goes on, by `Protocol.PoliciesAgree` |
| Dispatch.CloseStep | main.py:219-222 | kind 8 as a function: the sentinel, then the exit with nothing written; stated by `Protocol.ServeClose`, and for a wrong sentinel by `Protocol.MisalignedStops` and `Protocol.MisalignedReported` |
| Dispatch.VersionStep | main.py:223-225 | kind 0 as a function: the sentinel, then the schema version 3 as an integer answer; stated by `Protocol.ServeVersion` |
| Dispatch.Reply | main.py:226-261 | the string answered for each of kinds 1, 2, 3 and 6: the plugin information, the licence text, "{}" and "[]"; stated by `Protocol.ServeString` |
| Dispatch.Change | main.py:251-258 | the configuration a message replaces: kinds 4 and 5 assign an accepted field to the global or the plugin configuration before the sentinel is read; a rejected field and every other kind change nothing; stated by `Protocol.ServeSetConfig` and `Protocol.ServeProgress` |
| Dispatch.Requested | main.py:217-256 | the change asked for by the message whose kind word is at the position; stated by `Protocol.ServeSetConfig` and `Protocol.ServeProgress` |
| Dispatch.FormatStep | main.py:262-283 | kind 7 as a function: the fields, then the resolved style and the formatter's answer; stated by `Protocol.ServeFormat`, and for fields that raise by `Protocol.ServeBroke` |
| Dispatch.Attempt | main.py:217-286 | the kind word, then the body of the `try` block for that kind; its bounds are stated by `Protocol.AttemptBounded` |
| Dispatch.AnswerStep | main.py:226-250 | kinds 1, 2, 3 and 6 as a function: the sentinel, then the string answer, whose later chunks each wait for a ready word; stated per kind by `Protocol.ServeString` |
| Dispatch.SetConfigStep | main.py:251-258 | kinds 4 and 5 as a function: the configuration field, then the sentinel and the success answer; stated by `Protocol.ServeSetConfig` |
| Dispatch.FormatFields | main.py:263-266 | the fields of a format request as a function: path and text must be UTF-8, the override must be UTF-8 JSON, then the sentinel; stated by `Protocol.FormatMessageRead` and the `Protocol` lemmas on rejected fields |
| Dispatch.FormattedStep | main.py:273-283 | the formatter's answer as a function; stated by `Protocol.SettledFormatted` |
| Dispatch.StyledStep | main.py:268-283 | the resolution of the three configurations, then the formatter's answer, as a function; stated by `Protocol.SettledStyled` |
| Dispatch.Route | main.py:219-286 | the handler chosen for each kind, and the `ValueError` for any other kind; stated by the `Protocol.Serve...` lemmas |
| Dispatch.Settled | main.py:287-288 | the `except` clause as a function: a fault is answered with its diagnostic after what was already written; stated by `Protocol.SettledBounded` |
| Dispatch.Serve | main.py:216-288 | one turn of the message loop as a function of the input, the position and the two configurations; its properties are the `Protocol` lemmas |
| Dispatch.ReadFromExtra | main.py:265-266 | the override configuration field and the sentinel, as `FormatFields` says from field 2 |
| Dispatch.ReadFromText | main.py:264-266 | the file text and the rest of the request, as `FormatFields` says from field 1 |
| Dispatch.ReadRequest | main.py:263-266 | the file path, the file text and the override configuration, as `FormatFields` says |
| Dispatch.Session.constructor | main.py:213-214 | both configurations start empty |
| Dispatch.Session.SetGlobalConfig | main.py:251-254 | kind 4 does what `SetConfigStep` says; unless the worker halts, the global configuration becomes what `Change` says and the plugin configuration is unchanged |
| Dispatch.Session.SetPluginConfig | main.py:255-258 | kind 5 does the same for the plugin configuration |
| Dispatch.Session.FormatText | main.py:262-283 | kind 7 does what `FormatStep` says for the session's two configurations |
| Dispatch.Session.Handle | main.py:219-286 | every kind does what `Route` says, and the configurations change as `Change` says |
| Dispatch.Session.HandleMessage | main.py:216-288 | one loop turn does what `Serve` says, including the `except` clause; on a reply the configurations are updated as the turn's effect says |
| Dispatch.Conclude | main.py:287-288 | a fault is answered with the failure response and the loop goes on, as `Settled` says |
| Protocol.ServeClose | main.py:219-222 | a close request with its sentinel exits after reading 8 bytes, having written nothing |
| Protocol.ServeVersion | main.py:223-225 | kind 0 with its sentinel is answered `0, 3, sentinel` and changes nothing |
| Protocol.ServeString | main.py:226-250 | kinds 1, 2, 3 and 6 with their sentinel are answered with the plugin info, the license text, `{}` and `[]`; each later chunk waits for a ready word; nothing changes |
| Protocol.ServeConfigAccepted | main.py:251-258 | a configuration field that is UTF-8 JSON, of any kind, replaces the global (kind 4) or plugin (kind 5) configuration, and after the sentinel the answer is success |
| Protocol.ServeConfigRejected | main.py:251-258 | a configuration field that is not UTF-8 JSON is answered with the `NotUtf8` or `NotJson` diagnostic, before the sentinel is read, and changes nothing |
| Protocol.ServeSetConfig | main.py:251-258 | an accepted configuration replaces the global (kind 4) or plugin (kind 5) one and is answered with success; a rejected one is answered with the diagnostic and changes nothing |
| Protocol.ServeUnknown | main.py:284-288 | any kind above 8 is answered with the diagnostic, the loop goes on and nothing changes |
| Protocol.FormatMessageRead | main.py:263-266 | a well-formed format request is read in full: the file text, the parsed override and one ready word per later chunk of each field |
| Protocol.ServeFormatted | main.py:268-283 | a format request read in full is answered as `Formatted` lays out |
| Protocol.SettledStyled | main.py:268-288 | a format request read in full is answered as `Answered` lays out: the `Untranslatable` diagnostic when a configuration cannot be translated, the formatter's answer otherwise |
| Protocol.ServeFormat | main.py:262-283 | a well-formed format request is answered with 0 for unchanged text, with 1 and the new text for changed text, or with the diagnostic when the formatter fails or a configuration cannot be translated; the style is resolved from the three configurations; nothing changes |
| Protocol.FormatUntranslatable | main.py:164-189 | a well-formed format request for which the global, plugin or override configuration does not translate is answered with the `Untranslatable` diagnostic after its sentinel; nothing changes |
| Protocol.PathFieldBroke | main.py:263 | a file path that is not UTF-8 raises `NotUtf8` as soon as its field is read |
| Protocol.TextFieldBroke | main.py:263-264 | a UTF-8 path then a file text that is not UTF-8 raises `NotUtf8` once the text's field is read |
| Protocol.ExtraFieldBroke | main.py:263-265 | a UTF-8 path and text, then an override that is not UTF-8 or not JSON, raises `NotUtf8` or `NotJson` once its field is read, before the sentinel |
| Protocol.ExtraMisaligned | main.py:265-266 | an accepted override followed by other bytes than the sentinel raises `Misaligned` as written, and ends the worker as intended |
| Protocol.TextThenBroke | main.py:264-265 | a UTF-8 file text keeps the fault raised by the fields after it, behind its own ready words |
| Protocol.TextThenHalted | main.py:264-265 | a UTF-8 file text keeps the halt of the fields after it |
| Protocol.PathThenBroke | main.py:263-264 | a UTF-8 path keeps the fault raised by the fields after it, behind its own ready words |
| Protocol.PathThenHalted | main.py:263-264 | a UTF-8 path keeps the halt of the fields after it |
| Protocol.ServeBroke | main.py:262-288 | a format request whose fields raise is answered with the diagnostic after the ready words written so far; nothing changes |
| Protocol.ServeHalted | main.py:262-266 | a format request whose fields end the worker stops it |
| Protocol.FormatPathRejected | main.py:263-288 | a format request whose path is not UTF-8 is answered with the `NotUtf8` diagnostic; nothing after the path is read and nothing changes |
| Protocol.TextRejectedRead | main.py:263-264 | the fields of a format request whose text is not UTF-8 raise `NotUtf8` right after the text |
| Protocol.FormatTextRejected | main.py:263-288 | a format request whose text is not UTF-8 is answered with the `NotUtf8` diagnostic after the ready words for path and text; nothing changes |
| Protocol.ExtraRejectedRead | main.py:263-265 | the fields of a format request whose override is not UTF-8 JSON raise right after the override |
| Protocol.FormatExtraRejected | main.py:263-288 | a format request whose override is not UTF-8 or not JSON is answered with the `NotUtf8` or `NotJson` diagnostic after the ready words for the three fields; its sentinel is not read and nothing changes |
| Protocol.MisalignedFields | main.py:263-266 | where the fields of a format request are when other bytes stand in place of its sentinel |
| Protocol.MisalignedFieldsBroke | main.py:263-266 | as written: the fields of such a request raise `Misaligned` once the four bytes are consumed |
| Protocol.MisalignedFieldsHalted | main.py:263-266 | as intended: the fields of such a request end the worker |
| Protocol.FormatMisalignedReported | main.py:38-44 | as written: a well-formed format request with a wrong sentinel is answered with the `Misaligned` diagnostic and the loop goes on |
| Protocol.FormatMisalignedStops | main.py:38-44 | as intended: the same request stops the worker |
| Protocol.SentinelAsKind | main.py:217-286 | the sentinel read where a kind belongs is answered as the unknown kind 0xFFFFFFFF |
| Protocol.RejectedConfigThenSentinel | main.py:252-288 | a rejected configuration whose diagnostic needs no ready word ends its turn just before the message's sentinel, and the next turn answers that sentinel with a second failure |
| Protocol.RejectedExtraThenSentinel | main.py:265-288 | a format request whose override is rejected, with a diagnostic that needs no ready word, ends its turn just before its sentinel, and the next turn answers that sentinel with a second failure |
| Protocol.UnknownAsKind | main.py:217-288 | a word above 8 read where a kind belongs is answered with the unknown-kind diagnostic after it, and nothing changes |
| Protocol.PathRejectedTurn | main.py:263-288 | a format request whose path is not UTF-8, with a diagnostic that needs no ready word, ends its turn right after the path with the failure answer |
| Protocol.TextLengthAsKind | main.py:217-288 | the turn that starts at a format request's text field reads its length word as the kind, an unknown one when above 8 |
| Protocol.PathRejectedThenTextLength | main.py:263-288 | after a rejected path the turn ends right after the path, and the next turn answers the text's length word as an unknown kind |
| Protocol.TextRejectedTurn | main.py:264-288 | a format request whose text is not UTF-8, with a diagnostic that needs no ready word, ends its turn right after the text with the failure answer |
| Protocol.ExtraLengthAsKind | main.py:217-288 | the turn that starts at a format request's override field reads its length word as the kind, an unknown one when above 8 |
| Protocol.TextRejectedThenExtraLength | main.py:264-288 | after a rejected text the turn ends right after the text, and the next turn answers the override's length word as an unknown kind |
| Protocol.MisalignedReported | main.py:38-44 | as written: a message without fields whose sentinel is wrong, kind 8 included, is answered with a failure and the loop goes on |
| Protocol.MisalignedStops | main.py:38-44 | as intended: the same message stops the worker |
| Protocol.MisalignedConfigReported | main.py:251-258 | as written: an accepted configuration with a wrong sentinel is answered with a failure, yet it has already replaced the old one |
| Protocol.MisalignedConfigStops | main.py:251-258 | as intended: the same message stops the worker |
| Protocol.FieldsAgree | main.py:263-266 | the fields of a format request are read alike under both policies unless `Stop` halts |
| Protocol.PoliciesAgree | main.py:216-288 | wherever the intended behaviour goes on, the code as written does exactly the same |
| Protocol.ResponsesEnd | main.py:73-99 | every response ends with the sentinel |
| Protocol.AttemptBounded | main.py:216-286 | the body of the `try` block reads at least the kind and no more than the input; it closes only on kind 8 |
| Protocol.ServeProgress | main.py:216-288 | every turn that goes on consumes at least 4 bytes and stays within the input, and its output ends with the sentinel; only kinds 4 and 5 change a configuration; a turn exits only on kind 8, after reading exactly 8 bytes and writing nothing |

## Left out

- Short reads. `read_int` zero-pads a short read and ignores the count (main.py:28-31), and a short `strict_read` fails while building its message (main.py:104-106). In the model any read that finds fewer bytes than it asked for halts the worker. The model also takes `inbound` as the whole input: every read of bytes the host has sent completes in one call, whereas `readinto` on the unbuffered standard input (main.py:211) may return fewer bytes while more are still on the way. At end of input the code as written would treat the zero-padded word as kind 0 and answer failures forever; the model stops instead.
- Partial writes. `strict_write` (main.py:47-51) is modelled as always writing the whole view, so its failure branch is not modelled.
- Payloads of 2^32 bytes or more. `struct.pack('>I', ...)` would raise on them; every payload the model writes is below that bound (`Env.Valid`).
- The JSON parser, the UTF-8 check, `FormatCode` and `traceback.format_exc()` are the `Env` functions `parse`, `utf8`, `format` and `diagnostic`, with no content of their own. `parse` yields any JSON value: an object, a string, an array, or a number, boolean or null (`Atom`, which is never iterated). Kinds 4 and 5 store whatever value parses. A later format request then translates it, and a value other than an object raises inside `get_dprint_to_yapf_config` (main.py:164-181) unless it is an empty string or an array holding only "newLineKind"; the model raises the fault `Untranslatable` there, after the request's sentinel. `diagnostic` gives one text per kind of fault (`Fault`), where the real traceback also depends on the exception's message and location. `format` works on the encoded text, so the unchanged-text test is made on bytes, where the code compares the decoded `str`; for valid UTF-8 the two agree.
- The plugin-info document (main.py:228-244) and the license text (main.py:138-161) are the opaque `Env` payloads `pluginInfo` and `licenseText`. `json.dumps` is not modelled.
- Configuration values are kept as their `str()` rendering (`Value`), so the style text does not model how Python renders numbers and booleans. `str.lower()` is modelled on the ASCII letters only.
- `argparse` and the parent-process id, `sys.path` setup, `eprint`/stderr and `flush` (main.py:1-21, main.py:204-212) are I/O plumbing with no effect on the streams' contents.
- `sys.exit(0)` on kind 8 is the `Exited` effect. The exit status and the process ending are not modelled.
- The message loop itself is modelled one turn at a time (`Session.HandleMessage`, `Serve`); a driver that repeats turns until an exit or a halt is not part of this model.
- The build script and the Rust launcher (`scripts/createPluginFile.js`, `executable/src/main.rs`) are not part of this model.
- A protocol without sentinels (schema version 2) does not appear in `main.py` and is not modelled.
- Chunking.SendRecvMirror: stated only for non-empty payloads. For an empty payload the sender still writes an empty first chunk (main.py:57) while the receiver reads none (main.py:113), so the two logs differ by that empty write.

## Findings

| source | as written | input that shows it | evidently intended | confidence | as-written member | corrected member |
|---|---|---|---|---|---|---|
| main.py:38-44 | when the four bytes after a request are not the sentinel, `"..." + value` adds a `bytearray` to a `str` and raises `TypeError` before `sys.exit` runs; the `except` clause at main.py:287-288 answers it as an ordinary failure and the loop goes on reading from a misaligned stream (`Protocol.FormatMisalignedReported` shows the same for kind 7, corrected in `Protocol.FormatMisalignedStops`); for kinds 4 and 5 the new configuration has already been stored (main.py:252, 256) | kind 0 followed by `00 00 00 00` instead of `FF FF FF FF`; or kind 4, an accepted configuration, then `00 00 00 00` | the worker exits on a sentinel mismatch, as the `sys.exit` call shows | high (not executed) | Protocol.MisalignedReported | Protocol.MisalignedStops |
