/** One turn of the worker's message loop: read a message kind, handle
    the request it introduces, and answer it. What a turn does is given
    first as a function of the inbound bytes (`Attempt` for the body of
    the `try` block, `Serve` once the `except` clause has had its say);
    the `Session` class then performs it on a `Pipe` and is proved to
    agree with that function. */
module Dispatch {
  import opened Wrappers
  import opened Bytes
  import opened Chunking
  import opened Frames
  import opened Config
  import opened Transport

  /** The schema version the worker reports for kind 0. */
  const SchemaVersion: nat := 3

  /** `"{}"` and `"[]"` encoded as UTF-8. */
  const EmptyObject: seq<byte> := [0x7B, 0x7D]
  const EmptyArray: seq<byte> := [0x5B, 0x5D]

  /** The exceptions raised inside the `try` block. */
  datatype Fault =
    | UnknownKind(kind: nat)   // the `ValueError` for an unexpected kind
    | NotUtf8                  // a payload that is not valid UTF-8
    | NotJson                  // a payload that is not JSON
    | Untranslatable           // a configuration whose translation raises
    | FormatFailed             // the formatter raised
    | Misaligned               // the `TypeError` from building the exit message

  /** What the worker calls but this model does not define: the plugin
      information document, the license text, the UTF-8 check, the JSON
      parser, the formatter (`FormatCode`) and the traceback text of a
      fault. */
  datatype Env = Env(
    pluginInfo: seq<byte>,
    licenseText: seq<byte>,
    utf8: seq<byte> -> bool,
    parse: seq<byte> -> Option<Json>,
    format: (seq<byte>, string) -> Option<seq<byte>>,
    diagnostic: Fault -> seq<byte>)
  {
    /** Everything written fits a 32-bit length and every parsed object
        is a well-formed dictionary. */
    ghost predicate Valid()
    {
      && |pluginInfo| < U32Limit && |licenseText| < U32Limit
      && (forall f :: |diagnostic(f)| < U32Limit)
      && (forall b :: parse(b).Some? ==> parse(b).value.Valid())
      && (forall t, s :: format(t, s).Some? ==> |format(t, s).value| < U32Limit)
    }
  }

  /** What happens when the four bytes where the sentinel belongs are
      something else: `Stop` ends the worker, `Report` is the behaviour of
      the code as written (the exit message cannot be built, and the
      resulting `TypeError` is reported to the host like any fault). */
  datatype Policy = Stop | Report

  /** A change to the session's configurations. */
  datatype Update = Keep | SetGlobal(global: Json) | SetPlugin(plugin: Json)

  function Apply(u: Update, global: Json, plugin: Json): (Json, Json)
  {
    match u
    case Keep => (global, plugin)
    case SetGlobal(g) => (g, plugin)
    case SetPlugin(p) => (global, p)
  }

  /** How the body of the `try` block ends: normally, with a fault, with
      the close request, or with the worker stopped. `at` is the input
      position reached and `out` what was written. */
  datatype Partial =
    | Finished(at: nat, out: seq<byte>)
    | Raised(fault: Fault, at: nat, out: seq<byte>)
    | Closed(at: nat, out: seq<byte>)
    | Halted

  /** How a whole turn ends: answered and ready for the next message,
      closed, or stopped. */
  datatype Effect =
    | Replied(cursor: nat, output: seq<byte>, update: Update)
    | Exited(cursor: nat, output: seq<byte>)
    | Stopped

  /** The payload of the variable field at position `at` of `s`. */
  function FieldAt(s: seq<byte>, at: nat): (r: Option<seq<byte>>)
    ensures r.Some? ==> at + 4 + |r.value| <= |s| && |r.value| < U32Limit
  {
    if at <= |s| then VariableAt(s[at..]) else None
  }

  /** The sentinel is at position `at` of `s`. */
  predicate Aligned(s: seq<byte>, at: nat)
  {
    at <= |s| && Sentinel <= s[at..]
  }

  /** The four bytes at `at` are not the sentinel. */
  function Mismatch(policy: Policy, s: seq<byte>, at: nat, out: seq<byte>): Partial
  {
    match policy
    case Stop => Halted
    case Report => if at + 4 <= |s| then Raised(Misaligned, at + 4, out) else Halted
  }

  /** Kind 8: the sentinel, then the worker exits. */
  function CloseStep(policy: Policy, s: seq<byte>, at: nat): Partial
  {
    if Aligned(s, at) then Closed(at + 4, []) else Mismatch(policy, s, at, [])
  }

  /** Kind 0: the sentinel, then the schema version. */
  function VersionStep(policy: Policy, s: seq<byte>, at: nat): Partial
  {
    if Aligned(s, at) then Finished(at + 4, IntResponse(SchemaVersion))
    else Mismatch(policy, s, at, [])
  }

  /** Kinds 1, 2, 3 and 6: the sentinel, then a string answer, whose
      later chunks each wait for a ready word. */
  function AnswerStep(policy: Policy, s: seq<byte>, at: nat, body: seq<byte>): Partial
    requires |body| < U32Limit
  {
    if !Aligned(s, at) then Mismatch(policy, s, at, [])
    else if at + 4 + 4 * ReadyCount(|body|) <= |s| then
      Finished(at + 4 + 4 * ReadyCount(|body|), StringResponse(body))
    else Halted
  }

  /** The configuration carried by `d`, or why there is none. */
  function Accepts(env: Env, d: seq<byte>): bool
  {
    env.utf8(d) && env.parse(d).Some?
  }

  function Rejection(env: Env, d: seq<byte>): Fault
  {
    if env.utf8(d) then NotJson else NotUtf8
  }

  /** Kinds 4 and 5: a configuration field, then the sentinel and the
      success answer. The configuration itself is replaced as `Change`
      says. */
  function SetConfigStep(policy: Policy, env: Env, s: seq<byte>, at: nat): Partial
  {
    match FieldAt(s, at)
    case None => Halted
    case Some(d) =>
      var next := at + 4 + |d|;
      var out := ReadyWords(ReadyCount(|d|));
      if !Accepts(env, d) then Raised(Rejection(env, d), next, out)
      else if Aligned(s, next) then Finished(next + 4, out + SuccessResponse())
      else Mismatch(policy, s, next, out)
  }

  /** The change a request of kind `kind`, whose fields start at `at`,
      makes to the configurations: kinds 4 and 5 replace the global and the
      plugin configuration with an accepted field, before the sentinel
      after it is checked; nothing else changes them. */
  function Change(env: Env, s: seq<byte>, at: nat, kind: nat): Update
  {
    if kind != 4 && kind != 5 then Keep
    else match FieldAt(s, at)
      case Some(d) =>
        if !Accepts(env, d) then Keep
        else if kind == 4 then SetGlobal(env.parse(d).value)
        else SetPlugin(env.parse(d).value)
      case None => Keep
  }

  /** The answer to a format request once its fields are read: a fault
      if the formatter raised, the "unchanged" answer if it returned the
      text as it was, the new text otherwise. */
  function FormattedStep(env: Env, text: seq<byte>, style: string, s: seq<byte>, at: nat): Partial
    requires env.Valid()
  {
    match env.format(text, style)
    case None => Raised(FormatFailed, at, [])
    case Some(t) =>
      if t == text then Finished(at, IntResponse(0))
      else if at + 4 * ReadyCount(|t|) <= |s| then
        Finished(at + 4 * ReadyCount(|t|), ChangedResponse(t))
      else Halted
  }

  /** `out` written before `e`. */
  function After(out: seq<byte>, e: Partial): Partial
  {
    match e
    case Finished(at, o) => Finished(at, out + o)
    case Raised(f, at, o) => Raised(f, at, out + o)
    case Closed(at, o) => Closed(at, out + o)
    case Halted => Halted
  }

  /** The fields of a format request as the worker reads them: either
      all of them, with the ready signals `out` written meanwhile and the
      input position `at` after the sentinel, or the way reading them
      ended early. */
  datatype Request =
    | Read(text: seq<byte>, extra: Json, at: nat, out: seq<byte>)
    | Broke(e: Partial)

  /** `Request` `r` with `out` written before it. */
  function Prefixed(out: seq<byte>, r: Request): Request
  {
    match r
    case Read(t, x, a, o) => Read(t, x, a, out + o)
    case Broke(e) => Broke(After(out, e))
  }

  /** Kind 7 from its field number `stage` on: the file path (0) and
      the file text (1), each a UTF-8 string, then the per-request
      configuration (2) and the sentinel. `text` is the file text once it
      has been read. */
  function FormatFields(stage: nat, policy: Policy, env: Env, s: seq<byte>, at: nat, text: seq<byte>): Request
    requires stage <= 2
    decreases 2 - stage
  {
    match FieldAt(s, at)
    case None => Broke(Halted)
    case Some(field) =>
      var next := at + 4 + |field|;
      var out := ReadyWords(ReadyCount(|field|));
      if stage < 2 then
        if !env.utf8(field) then Broke(Raised(NotUtf8, next, out))
        else Prefixed(out, FormatFields(stage + 1, policy, env, s, next, if stage == 1 then field else text))
      else if !Accepts(env, field) then Broke(Raised(Rejection(env, field), next, out))
      else if !Aligned(s, next) then Broke(After(out, Mismatch(policy, s, next, [])))
      else Read(text, env.parse(field).value, next + 4, out)
  }

  /** Kind 7 once its fields and the sentinel are read: the three
      configurations are resolved, which raises when one of them cannot
      be translated, and the formatter answers under the resolved style. */
  function StyledStep(env: Env, text: seq<byte>, global: Json, plugin: Json, extra: Json, s: seq<byte>, at: nat): Partial
    requires env.Valid()
  {
    match Resolved(global, plugin, extra)
    case None => Raised(Untranslatable, at, [])
    case Some(r) => FormattedStep(env, text, StyleText(r), s, at)
  }

  /** Kind 7: the fields, then the formatter's answer for the file text
      under the style resolved from the three configurations. */
  function FormatStep(policy: Policy, env: Env, global: Json, plugin: Json, s: seq<byte>, at: nat): Partial
    requires env.Valid()
  {
    match FormatFields(0, policy, env, s, at, [])
    case Broke(e) => e
    case Read(text, extra, next, out) => After(out, StyledStep(env, text, global, plugin, extra, s, next))
  }

  /** The string answered for kinds 1, 2, 3 and 6. */
  function Reply(env: Env, kind: nat): seq<byte>
  {
    match kind
    case 1 => env.pluginInfo
    case 2 => env.licenseText
    case 3 => EmptyObject
    case _ => EmptyArray
  }

  /** The body of the `try` block for the message starting at `at`. */
  function Attempt(policy: Policy, env: Env, global: Json, plugin: Json, s: seq<byte>, at: nat): Partial
    requires env.Valid()
  {
    if |s| < at + 4 then Halted
    else Route(policy, env, global, plugin, s, at + 4, DecodeU32(s[at..at + 4]))
  }

  /** The handler for `kind`, whose request continues at `next`. */
  function Route(policy: Policy, env: Env, global: Json, plugin: Json, s: seq<byte>, next: nat, kind: nat): Partial
    requires env.Valid()
  {
      if kind == 8 then CloseStep(policy, s, next)
      else if kind == 0 then VersionStep(policy, s, next)
      else if kind == 1 || kind == 2 || kind == 3 || kind == 6 then AnswerStep(policy, s, next, Reply(env, kind))
      else if kind == 4 || kind == 5 then SetConfigStep(policy, env, s, next)
      else if kind == 7 then FormatStep(policy, env, global, plugin, s, next)
      else Raised(UnknownKind(kind), next, [])
  }

  /** The `except` clause: a fault is answered with its diagnostic. A
      turn that goes on to the next message leaves the configurations
      changed as `u` says. */
  function Settled(env: Env, s: seq<byte>, e: Partial, u: Update): Effect
    requires env.Valid()
  {
    match e
    case Finished(at, out) => Replied(at, out, u)
    case Raised(f, at, out) =>
      var m := env.diagnostic(f);
      if at + 4 * ReadyCount(|m|) <= |s| then
        Replied(at + 4 * ReadyCount(|m|), out + FailureResponse(m), u)
      else Stopped
    case Closed(at, out) => Exited(at, out)
    case Halted => Stopped
  }

  /** One turn of the message loop on the input `s`, from position `at`. */
  function Serve(policy: Policy, env: Env, global: Json, plugin: Json, s: seq<byte>, at: nat): Effect
    requires env.Valid()
  {
    Settled(env, s, Attempt(policy, env, global, plugin, s, at), Requested(env, s, at))
  }

  /** The configuration change the message starting at `at` asks for. */
  function Requested(env: Env, s: seq<byte>, at: nat): Update
  {
    if |s| < at + 4 then Keep else Change(env, s, at + 4, DecodeU32(s[at..at + 4]))
  }

  /** How a handler reports back to the loop. */
  datatype Outcome = Done | Failed(fault: Fault) | Closing | Fatal

  /** A handler that reports `o` has left the input at `cursor` and the
      output at `outbound`, where its specification `e` says, starting
      from the output `out0`. */
  predicate Reached(e: Partial, o: Outcome, cursor: nat, outbound: seq<byte>, out0: seq<byte>)
  {
    match e
    case Finished(at, out) => o == Done && cursor == at && outbound == out0 + out
    case Raised(f, at, out) => o == Failed(f) && cursor == at && outbound == out0 + out
    case Closed(at, out) => o == Closing && cursor == at && outbound == out0 + out
    case Halted => o == Fatal
  }

  /** The loop's next step. */
  datatype Step = Continue | Exit | Halt

  /** A turn that ends with `step` has left the input at `cursor` and the
      output at `outbound`, where its specification `e` says. */
  predicate Finish(e: Effect, step: Step, cursor: nat, outbound: seq<byte>, out0: seq<byte>)
  {
    match e
    case Replied(c, out, _) => step == Continue && cursor == c && outbound == out0 + out
    case Exited(c, out) => step == Exit && cursor == c && outbound == out0 + out
    case Stopped => step == Halt
  }

  /** A reader of format request fields that reports `o` and the file
      text and per-request configuration has left the input at `cursor`
      and the output at `outbound`, where `r` says. */
  predicate Fetched(r: Request, o: Outcome, text: seq<byte>, extra: Json,
                    cursor: nat, outbound: seq<byte>, out0: seq<byte>)
  {
    match r
    case Read(t, x, a, out) =>
      o == Done && text == t && extra == x && cursor == a && outbound == out0 + out
    case Broke(e) => o != Done && Reached(e, o, cursor, outbound, out0)
  }

  /** What reading a UTF-8 field at `at` of `s` leaves behind: the outcome
      `o`, the field's bytes, the input position and the output, which
      started as `out0`. */
  predicate TextRead(env: Env, s: seq<byte>, at: nat, o: Outcome, text: seq<byte>,
                     cursor: nat, outbound: seq<byte>, out0: seq<byte>)
  {
    var f := FieldAt(s, at);
    && (o == Fatal <==> f.None?)
    && (f.Some? ==>
          && cursor == at + 4 + |f.value|
          && outbound == out0 + ReadyWords(ReadyCount(|f.value|))
          && text == f.value
          && o == if env.utf8(f.value) then Done else Failed(NotUtf8))
  }

  /** `read_string`: a variable field that must be UTF-8. */
  method ReadText(pipe: Pipe, env: Env) returns (o: Outcome, text: seq<byte>)
    requires pipe.Valid()
    modifies pipe
    ensures pipe.Valid()
    ensures TextRead(env, pipe.inbound, old(pipe.cursor), o, text, pipe.cursor, pipe.outbound, old(pipe.outbound))
  {
    var ok;
    ok, text := pipe.ReadVariableData();
    if !ok {
      return Fatal, text;
    }
    o := if env.utf8(text) then Done else Failed(NotUtf8);
  }

  /** What reading a configuration field at `at` of `s` leaves behind: as
      `TextRead`, with the parsed dictionary when the field is accepted. */
  predicate ConfigRead(env: Env, s: seq<byte>, at: nat, o: Outcome, config: Json,
                       cursor: nat, outbound: seq<byte>, out0: seq<byte>)
    requires env.Valid()
  {
    var f := FieldAt(s, at);
    && (o == Fatal <==> f.None?)
    && (f.Some? ==>
          && cursor == at + 4 + |f.value|
          && outbound == out0 + ReadyWords(ReadyCount(|f.value|))
          && o == (if Accepts(env, f.value) then Done else Failed(Rejection(env, f.value)))
          && (o == Done ==> config == env.parse(f.value).value && config.Valid()))
  }

  /** `json.loads(read_string(...))`: a variable field that must be
      UTF-8 JSON, which need not be an object. */
  method ReadConfig(pipe: Pipe, env: Env) returns (o: Outcome, config: Json)
    requires pipe.Valid() && env.Valid()
    modifies pipe
    ensures pipe.Valid()
    ensures ConfigRead(env, pipe.inbound, old(pipe.cursor), o, config, pipe.cursor, pipe.outbound, old(pipe.outbound))
  {
    var text;
    o, text := ReadText(pipe, env);
    config := Object(Empty);
    if o != Done {
      return;
    }
    var parsed := env.parse(text);
    if parsed.None? {
      return Failed(NotJson), config;
    }
    config := parsed.value;
  }

  /** `read_success_bytes` under the `Stop` policy. */
  method AwaitSentinel(pipe: Pipe) returns (o: Outcome)
    requires pipe.Valid()
    modifies pipe
    ensures pipe.Valid() && pipe.outbound == old(pipe.outbound)
    ensures o == Done <==> Aligned(pipe.inbound, old(pipe.cursor))
    ensures o != Done ==> o == Fatal
    ensures o == Done ==> pipe.cursor == old(pipe.cursor) + 4
  {
    var aligned := pipe.ReadSuccessBytes();
    o := if aligned then Done else Fatal;
  }

  /** Kind 8. */
  method AnswerClose(pipe: Pipe) returns (o: Outcome)
    requires pipe.Valid()
    modifies pipe
    ensures pipe.Valid()
    ensures Reached(CloseStep(Stop, pipe.inbound, old(pipe.cursor)), o, pipe.cursor, pipe.outbound, old(pipe.outbound))
  {
    o := AwaitSentinel(pipe);
    if o == Done {
      o := Closing;
    }
  }

  /** Kind 0. */
  method AnswerVersion(pipe: Pipe) returns (o: Outcome)
    requires pipe.Valid()
    modifies pipe
    ensures pipe.Valid()
    ensures Reached(VersionStep(Stop, pipe.inbound, old(pipe.cursor)), o, pipe.cursor, pipe.outbound, old(pipe.outbound))
  {
    o := AwaitSentinel(pipe);
    if o == Done {
      pipe.SendInt(SchemaVersion);
    }
  }

  /** Kinds 1, 2, 3 and 6. */
  method AnswerString(pipe: Pipe, body: seq<byte>) returns (o: Outcome)
    requires pipe.Valid() && |body| < U32Limit
    modifies pipe
    ensures pipe.Valid()
    ensures Reached(AnswerStep(Stop, pipe.inbound, old(pipe.cursor), body), o, pipe.cursor, pipe.outbound, old(pipe.outbound))
  {
    o := AwaitSentinel(pipe);
    if o == Done {
      var ok := pipe.SendString(body);
      if !ok {
        o := Fatal;
      }
    }
  }

  /** The formatter's answer to a format request, from position `at`. */
  method AnswerFormatted(pipe: Pipe, env: Env, text: seq<byte>, style: string) returns (o: Outcome)
    requires pipe.Valid() && env.Valid()
    modifies pipe
    ensures pipe.Valid()
    ensures Reached(FormattedStep(env, text, style, pipe.inbound, old(pipe.cursor)), o, pipe.cursor, pipe.outbound, old(pipe.outbound))
  {
    var formatted := env.format(text, style);
    if formatted.None? {
      assert pipe.outbound == old(pipe.outbound) + [];
      return Failed(FormatFailed);
    }
    var t := formatted.value;
    if text == t {
      pipe.SendInt(0);
      return Done;
    }
    var ok := pipe.SendChanged(t);
    o := if ok then Done else Fatal;
  }

  /** Kind 7 once every field is read: the style comes from the three
      configurations, and the formatter's answer goes out. */
  method AnswerStyled(pipe: Pipe, env: Env, text: seq<byte>, global: Json, plugin: Json, extra: Json)
    returns (o: Outcome)
    requires pipe.Valid() && env.Valid() && global.Valid() && plugin.Valid() && extra.Valid()
    modifies pipe
    ensures pipe.Valid()
    ensures Reached(StyledStep(env, text, global, plugin, extra, pipe.inbound, old(pipe.cursor)),
                    o, pipe.cursor, pipe.outbound, old(pipe.outbound))
  {
    var resolved := GetResolvedConfig(global, plugin, extra);
    if resolved.None? {
      assert pipe.outbound == old(pipe.outbound) + [];
      return Failed(Untranslatable);
    }
    var style := GetStyleConfig(resolved.value);
    o := AnswerFormatted(pipe, env, text, style);
  }

  /** `Reached` with part of the output moved from the pipe's starting
      contents into the specification. */
  lemma ReachedAfter(e: Partial, o: Outcome, cursor: nat, outbound: seq<byte>, out0: seq<byte>, out1: seq<byte>)
    requires Reached(e, o, cursor, outbound, out0 + out1)
    ensures Reached(After(out1, e), o, cursor, outbound, out0)
  {
    match e
    case Finished(at, out) =>
      assert out0 + out1 + out == out0 + (out1 + out);
    case Raised(f, at, out) =>
      assert out0 + out1 + out == out0 + (out1 + out);
    case Closed(at, out) =>
      assert out0 + out1 + out == out0 + (out1 + out);
    case Halted =>
  }
  /** A configuration field read as `ConfigRead` says and, when it is
      accepted, the sentinel and the success answer: together they are
      kind 4 or 5, whose change installs the configuration just read. */
  lemma SetStage(env: Env, s: seq<byte>, at: nat,
                 o1: Outcome, config: Json, c1: nat, ob1: seq<byte>, out0: seq<byte>,
                 o: Outcome, cursor: nat, outbound: seq<byte>)
    requires env.Valid()
    requires ConfigRead(env, s, at, o1, config, c1, ob1, out0)
    requires o1 != Done ==> o == o1 && cursor == c1 && outbound == ob1
    requires o1 == Done && !Aligned(s, c1) ==> o == Fatal
    requires o1 == Done && Aligned(s, c1) ==> o == Done && cursor == c1 + 4 && outbound == ob1 + SuccessResponse()
    ensures Reached(SetConfigStep(Stop, env, s, at), o, cursor, outbound, out0)
    ensures o1 == Done ==> Change(env, s, at, 4) == SetGlobal(config) && Change(env, s, at, 5) == SetPlugin(config)
    ensures o1 != Done ==> Change(env, s, at, 4) == Keep && Change(env, s, at, 5) == Keep
  {
    var e := SetConfigStep(Stop, env, s, at);
    match FieldAt(s, at)
    case None =>
      assert e == Halted;
    case Some(d) =>
      var out := ReadyWords(ReadyCount(|d|));
      if !Accepts(env, d) {
        assert e == Raised(Rejection(env, d), c1, out);
      } else if Aligned(s, c1) {
        assert e == Finished(c1 + 4, out + SuccessResponse());
        assert outbound == out0 + (out + SuccessResponse());
      } else {
        assert e == Halted;
      }
  }

  /** `Fetched` with part of the output moved from the pipe's starting
      contents into the specification. */
  lemma FetchedPrefixed(r: Request, o: Outcome, text: seq<byte>, extra: Json,
                        cursor: nat, outbound: seq<byte>, out0: seq<byte>, out1: seq<byte>)
    requires Fetched(r, o, text, extra, cursor, outbound, out0 + out1)
    ensures Fetched(Prefixed(out1, r), o, text, extra, cursor, outbound, out0)
  {
    match r
    case Read(t, x, a, out) =>
      assert out0 + out1 + out == out0 + (out1 + out);
    case Broke(e) =>
      ReachedAfter(e, o, cursor, outbound, out0, out1);
  }

  /** The file path field of kind 7 read as `TextRead` says, followed by
      the later fields: together they are the whole request. */
  lemma PathStage(env: Env, s: seq<byte>, at: nat,
                  o1: Outcome, path: seq<byte>, c1: nat, ob1: seq<byte>, out0: seq<byte>,
                  o: Outcome, text: seq<byte>, extra: Json, cursor: nat, outbound: seq<byte>)
    requires env.Valid()
    requires TextRead(env, s, at, o1, path, c1, ob1, out0)
    requires o1 != Done ==> o == o1 && cursor == c1 && outbound == ob1
    requires o1 == Done ==>
      Fetched(FormatFields(1, Stop, env, s, c1, []), o, text, extra, cursor, outbound, ob1)
    ensures Fetched(FormatFields(0, Stop, env, s, at, []), o, text, extra, cursor, outbound, out0)
  {
    var r := FormatFields(0, Stop, env, s, at, []);
    match FieldAt(s, at)
    case None =>
      assert r == Broke(Halted);
    case Some(f) =>
      var out := ReadyWords(ReadyCount(|f|));
      if !env.utf8(f) {
        assert r == Broke(Raised(NotUtf8, c1, out));
      } else {
        var rest := FormatFields(1, Stop, env, s, c1, []);
        assert r == Prefixed(out, rest);
        FetchedPrefixed(rest, o, text, extra, cursor, outbound, out0, out);
      }
  }

  /** The file text field of kind 7 read as `TextRead` says, followed by
      the configuration field and the sentinel. */
  lemma FileTextStage(env: Env, s: seq<byte>, at: nat,
                      o1: Outcome, text: seq<byte>, c1: nat, ob1: seq<byte>, out0: seq<byte>,
                      o: Outcome, extra: Json, cursor: nat, outbound: seq<byte>)
    requires env.Valid()
    requires TextRead(env, s, at, o1, text, c1, ob1, out0)
    requires o1 != Done ==> o == o1 && cursor == c1 && outbound == ob1
    requires o1 == Done ==>
      Fetched(FormatFields(2, Stop, env, s, c1, text), o, text, extra, cursor, outbound, ob1)
    ensures Fetched(FormatFields(1, Stop, env, s, at, []), o, text, extra, cursor, outbound, out0)
  {
    var r := FormatFields(1, Stop, env, s, at, []);
    match FieldAt(s, at)
    case None =>
      assert r == Broke(Halted);
    case Some(f) =>
      var out := ReadyWords(ReadyCount(|f|));
      if !env.utf8(f) {
        assert r == Broke(Raised(NotUtf8, c1, out));
      } else {
        var rest := FormatFields(2, Stop, env, s, c1, text);
        assert r == Prefixed(out, rest);
        FetchedPrefixed(rest, o, text, extra, cursor, outbound, out0, out);
      }
  }

  /** The per-request configuration field of kind 7 read as `ConfigRead`
      says, then the sentinel: together they are the last stage. */
  lemma ExtraStage(env: Env, s: seq<byte>, at: nat, text: seq<byte>,
                   o1: Outcome, extra: Json, c1: nat, ob1: seq<byte>, out0: seq<byte>,
                   o: Outcome, cursor: nat, outbound: seq<byte>)
    requires env.Valid()
    requires ConfigRead(env, s, at, o1, extra, c1, ob1, out0)
    requires o1 != Done ==> o == o1 && cursor == c1 && outbound == ob1
    requires o1 == Done && !Aligned(s, c1) ==> o == Fatal
    requires o1 == Done && Aligned(s, c1) ==> o == Done && cursor == c1 + 4 && outbound == ob1
    ensures Fetched(FormatFields(2, Stop, env, s, at, text), o, text, extra, cursor, outbound, out0)
  {
    var r := FormatFields(2, Stop, env, s, at, text);
    match FieldAt(s, at)
    case None =>
      assert r == Broke(Halted);
    case Some(f) =>
      var out := ReadyWords(ReadyCount(|f|));
      if !Accepts(env, f) {
        assert r == Broke(Raised(Rejection(env, f), c1, out));
      } else if Aligned(s, c1) {
        assert r == Read(text, extra, c1 + 4, out);
      } else {
        assert r == Broke(Halted);
      }
  }

  /** The fields of a format request read as `Fetched` says and, when all
      of them are there, the formatter's answer: together they are kind 7. */
  lemma FormatAnswered(env: Env, global: Json, plugin: Json, s: seq<byte>, at: nat,
                       o1: Outcome, text: seq<byte>, extra: Json, c1: nat, ob1: seq<byte>, out0: seq<byte>,
                       o: Outcome, cursor: nat, outbound: seq<byte>)
    requires env.Valid()
    requires Fetched(FormatFields(0, Stop, env, s, at, []), o1, text, extra, c1, ob1, out0)
    requires o1 != Done ==> o == o1 && cursor == c1 && outbound == ob1
    requires o1 == Done ==>
      Reached(StyledStep(env, text, global, plugin, extra, s, c1), o, cursor, outbound, ob1)
    ensures Reached(FormatStep(Stop, env, global, plugin, s, at), o, cursor, outbound, out0)
  {
    match FormatFields(0, Stop, env, s, at, [])
    case Broke(e) =>
    case Read(t, x, a, out) =>
      ReachedAfter(StyledStep(env, text, global, plugin, extra, s, c1), o, cursor, outbound, out0, out);
  }

  /** Kind 7 from the per-request configuration on: the configuration
      field, then the sentinel. */
  method ReadFromExtra(pipe: Pipe, env: Env, text: seq<byte>) returns (o: Outcome, extra: Json)
    requires pipe.Valid() && env.Valid()
    modifies pipe
    ensures pipe.Valid() && (o == Done ==> extra.Valid())
    ensures Fetched(FormatFields(2, Stop, env, pipe.inbound, old(pipe.cursor), text),
                    o, text, extra, pipe.cursor, pipe.outbound, old(pipe.outbound))
  {
    var o1;
    o1, extra := ReadConfig(pipe, env);
    ghost var c1, ob1 := pipe.cursor, pipe.outbound;
    o := o1;
    if o1 == Done {
      o := AwaitSentinel(pipe);
    }
    ExtraStage(env, pipe.inbound, old(pipe.cursor), text, o1, extra, c1, ob1, old(pipe.outbound),
               o, pipe.cursor, pipe.outbound);
  }

  /** Kind 7 from the file text on. */
  method ReadFromText(pipe: Pipe, env: Env) returns (o: Outcome, text: seq<byte>, extra: Json)
    requires pipe.Valid() && env.Valid()
    modifies pipe
    ensures pipe.Valid() && (o == Done ==> extra.Valid())
    ensures Fetched(FormatFields(1, Stop, env, pipe.inbound, old(pipe.cursor), []),
                    o, text, extra, pipe.cursor, pipe.outbound, old(pipe.outbound))
  {
    var o1;
    o1, text := ReadText(pipe, env);
    ghost var c1, ob1 := pipe.cursor, pipe.outbound;
    o, extra := o1, Object(Empty);
    if o1 == Done {
      o, extra := ReadFromExtra(pipe, env, text);
    }
    FileTextStage(env, pipe.inbound, old(pipe.cursor), o1, text, c1, ob1, old(pipe.outbound),
                  o, extra, pipe.cursor, pipe.outbound);
  }

  /** The fields of a format request: the file path, the file text, the
      per-request configuration and the sentinel. */
  method ReadRequest(pipe: Pipe, env: Env) returns (o: Outcome, text: seq<byte>, extra: Json)
    requires pipe.Valid() && env.Valid()
    modifies pipe
    ensures pipe.Valid() && (o == Done ==> extra.Valid())
    ensures Fetched(FormatFields(0, Stop, env, pipe.inbound, old(pipe.cursor), []),
                    o, text, extra, pipe.cursor, pipe.outbound, old(pipe.outbound))
  {
    var o1, path := ReadText(pipe, env);
    ghost var c1, ob1 := pipe.cursor, pipe.outbound;
    o, text, extra := o1, [], Object(Empty);
    if o1 == Done {
      o, text, extra := ReadFromText(pipe, env);
    }
    PathStage(env, pipe.inbound, old(pipe.cursor), o1, path, c1, ob1, old(pipe.outbound),
              o, text, extra, pipe.cursor, pipe.outbound);
  }

  /** The worker's state across messages: the last global and plugin
      configurations the host sent. */
  class Session {
    var globalConfig: Json
    var pluginConfig: Json

    ghost predicate Valid()
      reads this
    {
      globalConfig.Valid() && pluginConfig.Valid()
    }

    /** Both configurations start empty. */
    constructor ()
      ensures Valid() && globalConfig == Object(Empty) && pluginConfig == Object(Empty)
    {
      globalConfig := Object(Empty);
      pluginConfig := Object(Empty);
    }

    /** Kind 4. */
    method SetGlobalConfig(pipe: Pipe, env: Env) returns (o: Outcome)
      requires Valid() && pipe.Valid() && env.Valid()
      modifies this`globalConfig, pipe
      ensures pipe.Valid()
      ensures Reached(SetConfigStep(Stop, env, pipe.inbound, old(pipe.cursor)), o, pipe.cursor, pipe.outbound, old(pipe.outbound))
      ensures o != Fatal ==>
        && Valid()
        && (globalConfig, pluginConfig) == Apply(Change(env, pipe.inbound, old(pipe.cursor), 4), old(globalConfig), old(pluginConfig))
    {
      var o1, config := ReadConfig(pipe, env);
      ghost var c1, ob1 := pipe.cursor, pipe.outbound;
      o := o1;
      if o1 == Done {
        globalConfig := config;
        o := AwaitSentinel(pipe);
        if o == Done {
          pipe.SendSuccess();
        }
      }
      SetStage(env, pipe.inbound, old(pipe.cursor), o1, config, c1, ob1, old(pipe.outbound),
               o, pipe.cursor, pipe.outbound);
    }

    /** Kind 5. */
    method SetPluginConfig(pipe: Pipe, env: Env) returns (o: Outcome)
      requires Valid() && pipe.Valid() && env.Valid()
      modifies this`pluginConfig, pipe
      ensures pipe.Valid()
      ensures Reached(SetConfigStep(Stop, env, pipe.inbound, old(pipe.cursor)), o, pipe.cursor, pipe.outbound, old(pipe.outbound))
      ensures o != Fatal ==>
        && Valid()
        && (globalConfig, pluginConfig) == Apply(Change(env, pipe.inbound, old(pipe.cursor), 5), old(globalConfig), old(pluginConfig))
    {
      var o1, config := ReadConfig(pipe, env);
      ghost var c1, ob1 := pipe.cursor, pipe.outbound;
      o := o1;
      if o1 == Done {
        pluginConfig := config;
        o := AwaitSentinel(pipe);
        if o == Done {
          pipe.SendSuccess();
        }
      }
      SetStage(env, pipe.inbound, old(pipe.cursor), o1, config, c1, ob1, old(pipe.outbound),
               o, pipe.cursor, pipe.outbound);
    }

    /** Kind 7. */
    method FormatText(pipe: Pipe, env: Env) returns (o: Outcome)
      requires Valid() && pipe.Valid() && env.Valid()
      modifies pipe
      ensures pipe.Valid()
      ensures Reached(FormatStep(Stop, env, globalConfig, pluginConfig, pipe.inbound, old(pipe.cursor)),
                      o, pipe.cursor, pipe.outbound, old(pipe.outbound))
    {
      var o1, text, extra := ReadRequest(pipe, env);
      ghost var c1, ob1 := pipe.cursor, pipe.outbound;
      if o1 != Done {
        FormatAnswered(env, globalConfig, pluginConfig, pipe.inbound, old(pipe.cursor), o1, text, extra,
                       c1, ob1, old(pipe.outbound), o1, c1, ob1);
        return o1;
      }
      o := AnswerStyled(pipe, env, text, globalConfig, pluginConfig, extra);
      FormatAnswered(env, globalConfig, pluginConfig, pipe.inbound, old(pipe.cursor), o1, text, extra,
                     c1, ob1, old(pipe.outbound), o, pipe.cursor, pipe.outbound);
    }

    /** The handler for `kind`. */
    method Handle(pipe: Pipe, env: Env, kind: nat) returns (o: Outcome)
      requires Valid() && pipe.Valid() && env.Valid()
      modifies this, pipe
      ensures pipe.Valid()
      ensures var e := Route(Stop, env, old(globalConfig), old(pluginConfig), pipe.inbound, old(pipe.cursor), kind);
        && Reached(e, o, pipe.cursor, pipe.outbound, old(pipe.outbound))
        && (o != Fatal ==>
              && Valid()
              && (globalConfig, pluginConfig) == Apply(Change(env, pipe.inbound, old(pipe.cursor), kind), old(globalConfig), old(pluginConfig)))
    {
      if kind == 8 {
        o := AnswerClose(pipe);
      } else if kind == 0 {
        o := AnswerVersion(pipe);
      } else if kind == 1 || kind == 2 || kind == 3 || kind == 6 {
        o := AnswerString(pipe, Reply(env, kind));
      } else if kind == 4 {
        o := SetGlobalConfig(pipe, env);
      } else if kind == 5 {
        o := SetPluginConfig(pipe, env);
      } else if kind == 7 {
        o := FormatText(pipe, env);
      } else {
        assert pipe.outbound == old(pipe.outbound) + [];
        o := Failed(UnknownKind(kind));
      }
    }

    /** One turn of the message loop: the kind, its handler, and the
        failure answer for a fault. */
    method HandleMessage(pipe: Pipe, env: Env) returns (step: Step)
      requires Valid() && pipe.Valid() && env.Valid()
      modifies this, pipe
      ensures pipe.Valid()
      ensures var e := Serve(Stop, env, old(globalConfig), old(pluginConfig), pipe.inbound, old(pipe.cursor));
        && Finish(e, step, pipe.cursor, pipe.outbound, old(pipe.outbound))
        && (e.Replied? ==> Valid() && (globalConfig, pluginConfig) == Apply(e.update, old(globalConfig), old(pluginConfig)))
    {
      ghost var e := Attempt(Stop, env, globalConfig, pluginConfig, pipe.inbound, pipe.cursor);
      var ok, kind := pipe.ReadInt();
      if !ok {
        return Halt;
      }
      assert old(pipe.Pending())[..4] == pipe.inbound[old(pipe.cursor)..old(pipe.cursor) + 4];
      var o := Handle(pipe, env, kind);
      step := Conclude(pipe, env, o, e, Requested(env, pipe.inbound, old(pipe.cursor)), old(pipe.outbound));
    }
  }

  /** The `except` clause on a pipe. */
  method Conclude(pipe: Pipe, env: Env, o: Outcome, ghost e: Partial, ghost u: Update, ghost out0: seq<byte>)
    returns (step: Step)
    requires env.Valid() && pipe.Valid() && Reached(e, o, pipe.cursor, pipe.outbound, out0)
    modifies pipe
    ensures pipe.Valid() && Finish(Settled(env, pipe.inbound, e, u), step, pipe.cursor, pipe.outbound, out0)
  {
    match o
    case Done => step := Continue;
    case Closing => step := Exit;
    case Fatal => step := Halt;
    case Failed(f) =>
      var m := env.diagnostic(f);
      ghost var ob := pipe.outbound;
      assert e.Raised? && ob == out0 + e.out;
      var ok := pipe.SendFailure(m);
      step := if ok then Continue else Halt;
      if ok {
        assert pipe.outbound == out0 + (e.out + FailureResponse(m));
      }
  }
}
