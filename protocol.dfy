/** The worker's answer to each well-formed message the host can send,
    stated on `Serve`: the host encodes a message as its kind, its
    variable-length fields and the sentinel, and the lemmas here say what
    one turn of the loop consumes, writes and changes for each kind, and
    what it does with a message it cannot handle. */
module Protocol {
  import opened Wrappers
  import opened Bytes
  import opened Chunking
  import opened Frames
  import opened Config
  import opened Dispatch

  /** A message without fields: kinds 0, 1, 2, 3, 6 and 8. */
  function BareMessage(kind: nat): seq<byte>
    requires kind < U32Limit
  {
    EncodeU32(kind) + Sentinel
  }

  /** A message with one configuration field: kinds 4 and 5. */
  function ConfigMessage(kind: nat, config: seq<byte>): seq<byte>
    requires kind < U32Limit && |config| < U32Limit
  {
    EncodeU32(kind) + Variable(config) + Sentinel
  }

  /** A format request: the file path, the file text and the per-request
      configuration. */
  function FormatMessage(path: seq<byte>, text: seq<byte>, extra: seq<byte>): seq<byte>
    requires |path| < U32Limit && |text| < U32Limit && |extra| < U32Limit
  {
    EncodeU32(7) + Variable(path) + Variable(text) + Variable(extra) + Sentinel
  }

  /** Output that ends with the sentinel, as every response does. */
  predicate EndsWithSentinel(out: seq<byte>)
  {
    |out| >= 4 && out[|out| - 4..] == Sentinel
  }

  /** Two pieces at the head of `s[at..]` sit one after the other. */
  lemma Behind(s: seq<byte>, at: nat, a: seq<byte>, b: seq<byte>)
    requires at <= |s| && a + b <= s[at..]
    ensures at + |a| + |b| <= |s|
    ensures a <= s[at..] && b <= s[at + |a|..]
  {
    var t := s[at..];
    assert t[..|a| + |b|] == a + b;
    assert t[..|a|] == (a + b)[..|a|] == a;
    assert t[|a|..][..|b|] == (a + b)[|a|..] == b;
    assert s[at + |a|..] == t[|a|..];
  }

  /** An encoded word at the head of `s[at..]` is read back as its value. */
  lemma WordAt(s: seq<byte>, at: nat, v: nat)
    requires v < U32Limit && at <= |s| && EncodeU32(v) <= s[at..]
    ensures at + 4 <= |s| && DecodeU32(s[at..at + 4]) == v
  {
    assert s[at..at + 4] == EncodeU32(v);
    DecodeEncode(v);
  }

  /** A variable field at the head of `s[at..]` is read back as its
      payload. */
  lemma FieldAtVariable(s: seq<byte>, at: nat, d: seq<byte>)
    requires |d| < U32Limit && at <= |s| && Variable(d) <= s[at..]
    ensures FieldAt(s, at) == Some(d)
  {
    var rest := s[at..][|Variable(d)|..];
    assert s[at..] == Variable(d) + rest;
    VariableRoundTrip(d, rest);
  }

  /** Where the parts of a message without fields are. */
  lemma BareMessageAt(s: seq<byte>, at: nat, kind: nat)
    requires kind < U32Limit && at <= |s| && BareMessage(kind) <= s[at..]
    ensures at + 8 <= |s| && DecodeU32(s[at..at + 4]) == kind && Aligned(s, at + 4)
  {
    Behind(s, at, EncodeU32(kind), Sentinel);
    WordAt(s, at, kind);
  }

  /** Where the parts of a configuration message are. */
  lemma ConfigMessageAt(s: seq<byte>, at: nat, kind: nat, d: seq<byte>)
    requires kind < U32Limit && |d| < U32Limit && at <= |s| && ConfigMessage(kind, d) <= s[at..]
    ensures at + 12 + |d| <= |s| && DecodeU32(s[at..at + 4]) == kind
    ensures FieldAt(s, at + 4) == Some(d) && Aligned(s, at + 8 + |d|)
  {
    Behind(s, at, EncodeU32(kind) + Variable(d), Sentinel);
    Behind(s, at, EncodeU32(kind), Variable(d));
    WordAt(s, at, kind);
    FieldAtVariable(s, at + 4, d);
  }

  /** Where the parts of a format request are. */
  lemma FormatMessageAt(s: seq<byte>, at: nat, path: seq<byte>, text: seq<byte>, extra: seq<byte>)
    requires |path| < U32Limit && |text| < U32Limit && |extra| < U32Limit
    requires at <= |s| && FormatMessage(path, text, extra) <= s[at..]
    ensures at + 20 + |path| + |text| + |extra| <= |s| && DecodeU32(s[at..at + 4]) == 7
    ensures Variable(path) <= s[at + 4..]
    ensures Variable(text) <= s[at + 8 + |path|..]
    ensures Variable(extra) <= s[at + 12 + |path| + |text|..]
    ensures Aligned(s, at + 16 + |path| + |text| + |extra|)
  {
    var head := EncodeU32(7) + Variable(path) + Variable(text);
    Behind(s, at, head + Variable(extra), Sentinel);
    Behind(s, at, head, Variable(extra));
    Behind(s, at, EncodeU32(7) + Variable(path), Variable(text));
    Behind(s, at, EncodeU32(7), Variable(path));
    WordAt(s, at, 7);
  }

  /** Kind 8 with its sentinel: the worker exits, having written nothing. */
  lemma ServeClose(policy: Policy, env: Env, global: Json, plugin: Json, s: seq<byte>, at: nat)
    requires env.Valid() && at <= |s| && BareMessage(8) <= s[at..]
    ensures Serve(policy, env, global, plugin, s, at) == Exited(at + 8, [])
  {
    BareMessageAt(s, at, 8);
  }

  /** Kind 0 with its sentinel: the schema version 3, and nothing else
      changes. */
  lemma ServeVersion(policy: Policy, env: Env, global: Json, plugin: Json, s: seq<byte>, at: nat)
    requires env.Valid() && at <= |s| && BareMessage(0) <= s[at..]
    ensures Serve(policy, env, global, plugin, s, at) == Replied(at + 8, IntResponse(3), Keep)
  {
    BareMessageAt(s, at, 0);
  }

  /** Kinds 1, 2, 3 and 6 with their sentinel: the string, whose later
      chunks each wait for a ready signal from the input. The two fixed
      answers fit in one chunk and wait for none. */
  lemma ServeString(policy: Policy, env: Env, global: Json, plugin: Json, s: seq<byte>, at: nat, kind: nat)
    requires env.Valid() && (kind == 1 || kind == 2 || kind == 3 || kind == 6)
    requires at <= |s| && BareMessage(kind) <= s[at..]
    ensures kind == 1 ==> Reply(env, kind) == env.pluginInfo
    ensures kind == 2 ==> Reply(env, kind) == env.licenseText
    ensures |Reply(env, kind)| < U32Limit
    ensures
      var body := Reply(env, kind);
      var c := at + 8 + 4 * ReadyCount(|body|);
      Serve(policy, env, global, plugin, s, at) == if c <= |s| then Replied(c, StringResponse(body), Keep) else Stopped
    ensures kind == 3 ==> Serve(policy, env, global, plugin, s, at) == Replied(at + 8, StringResponse(EmptyObject), Keep)
    ensures kind == 6 ==> Serve(policy, env, global, plugin, s, at) == Replied(at + 8, StringResponse(EmptyArray), Keep)
  {
    BareMessageAt(s, at, kind);
  }

  /** Kinds 4 and 5 with an accepted configuration field and the
      sentinel: the configuration, whatever JSON value it is, replaces the
      global (4) or plugin (5) one and is answered with success. */
  lemma ServeConfigAccepted(policy: Policy, env: Env, global: Json, plugin: Json, s: seq<byte>, at: nat,
                            kind: nat, d: seq<byte>)
    requires env.Valid() && (kind == 4 || kind == 5) && |d| < U32Limit
    requires at <= |s| && ConfigMessage(kind, d) <= s[at..]
    requires env.utf8(d) && env.parse(d).Some?
    ensures
      var x := env.parse(d).value;
      Serve(policy, env, global, plugin, s, at) ==
        Replied(at + 12 + |d|, ReadyWords(ReadyCount(|d|)) + SuccessResponse(), if kind == 4 then SetGlobal(x) else SetPlugin(x))
  {
    ConfigMessageAt(s, at, kind, d);
  }

  /** Kinds 4 and 5 with a configuration field that is not UTF-8 JSON:
      the diagnostic, and nothing changes. The field's sentinel is left
      unread, so the ready signals the diagnostic waits for are taken
      from there on. */
  lemma ServeConfigRejected(policy: Policy, env: Env, global: Json, plugin: Json, s: seq<byte>, at: nat,
                            kind: nat, d: seq<byte>)
    requires env.Valid() && (kind == 4 || kind == 5) && |d| < U32Limit
    requires at <= |s| && EncodeU32(kind) + Variable(d) <= s[at..]
    requires !(env.utf8(d) && env.parse(d).Some?)
    ensures Serve(policy, env, global, plugin, s, at)
              == Diagnosed(env, s, Rejection(env, d), at + 8 + |d|, ReadyWords(ReadyCount(|d|)))
  {
    Behind(s, at, EncodeU32(kind), Variable(d));
    WordAt(s, at, kind);
    FieldAtVariable(s, at + 4, d);
  }

  /** Kinds 4 and 5 with a configuration field and the sentinel. An
      accepted configuration replaces the global (4) or plugin (5) one
      and is answered with success; a rejected one is answered with the
      diagnostic and changes nothing. Either way a ready signal was
      written for each later chunk of the field. */
  lemma ServeSetConfig(policy: Policy, env: Env, global: Json, plugin: Json, s: seq<byte>, at: nat,
                       kind: nat, d: seq<byte>)
    requires env.Valid() && (kind == 4 || kind == 5) && |d| < U32Limit
    requires at <= |s| && ConfigMessage(kind, d) <= s[at..]
    ensures
      var out := ReadyWords(ReadyCount(|d|));
      env.utf8(d) && env.parse(d).Some? ==>
        var x := env.parse(d).value;
        Serve(policy, env, global, plugin, s, at) ==
          Replied(at + 12 + |d|, out + SuccessResponse(), if kind == 4 then SetGlobal(x) else SetPlugin(x))
    ensures
      var out := ReadyWords(ReadyCount(|d|));
      !(env.utf8(d) && env.parse(d).Some?) ==>
        var m := env.diagnostic(if env.utf8(d) then NotJson else NotUtf8);
        var c := at + 8 + |d| + 4 * ReadyCount(|m|);
        Serve(policy, env, global, plugin, s, at) ==
          if c <= |s| then Replied(c, out + FailureResponse(m), Keep) else Stopped
  {
    if env.utf8(d) && env.parse(d).Some? {
      ServeConfigAccepted(policy, env, global, plugin, s, at, kind, d);
    } else {
      Behind(s, at, EncodeU32(kind) + Variable(d), Sentinel);
      ServeConfigRejected(policy, env, global, plugin, s, at, kind, d);
    }
  }

  /** A kind the worker does not know, whatever follows it: the
      diagnostic, the loop goes on and nothing changes. */
  lemma ServeUnknown(policy: Policy, env: Env, global: Json, plugin: Json, s: seq<byte>, at: nat, kind: nat)
    requires env.Valid() && 8 < kind < U32Limit && at <= |s| && EncodeU32(kind) <= s[at..]
    ensures
      var m := env.diagnostic(UnknownKind(kind));
      var c := at + 4 + 4 * ReadyCount(|m|);
      Serve(policy, env, global, plugin, s, at) == if c <= |s| then Replied(c, FailureResponse(m), Keep) else Stopped
  {
    WordAt(s, at, kind);
  }

  /** `r` is a format request read in full: the file text `text`, the
      per-request configuration `x`, the input position `c` after the
      sentinel and the ready signals `w` written meanwhile. */
  predicate ReadAs(r: Request, text: seq<byte>, x: Json, c: nat, w: seq<byte>)
  {
    r.Read? && r.text == text && r.extra == x && r.at == c && r.out == w
  }

  /** The per-request configuration field, accepted, then the sentinel. */
  lemma ExtraFieldRead(policy: Policy, env: Env, s: seq<byte>, at: nat, text: seq<byte>, extra: seq<byte>)
    requires FieldAt(s, at) == Some(extra)
    requires Aligned(s, at + 4 + |extra|) && env.utf8(extra) && env.parse(extra).Some?
    ensures ReadAs(FormatFields(2, policy, env, s, at, text), text, env.parse(extra).value,
                   at + 4 + |extra| + 4, ReadyWords(ReadyCount(|extra|)))
  {
  }

  /** A UTF-8 file text field, then the rest of the request. */
  lemma FileTextFieldRead(policy: Policy, env: Env, s: seq<byte>, at: nat, text: seq<byte>,
                          x: Json, c: nat, w: seq<byte>)
    requires FieldAt(s, at) == Some(text) && env.utf8(text)
    requires ReadAs(FormatFields(2, policy, env, s, at + 4 + |text|, text), text, x, c, w)
    ensures ReadAs(FormatFields(1, policy, env, s, at, []), text, x, c, ReadyWords(ReadyCount(|text|)) + w)
  {
  }

  /** A UTF-8 file path field, then the rest of the request. */
  lemma PathFieldRead(policy: Policy, env: Env, s: seq<byte>, at: nat, path: seq<byte>,
                      text: seq<byte>, x: Json, c: nat, w: seq<byte>)
    requires FieldAt(s, at) == Some(path) && env.utf8(path)
    requires ReadAs(FormatFields(1, policy, env, s, at + 4 + |path|, []), text, x, c, w)
    ensures ReadAs(FormatFields(0, policy, env, s, at, []), text, x, c, ReadyWords(ReadyCount(|path|)) + w)
  {
    var r1 := FormatFields(1, policy, env, s, at + 4 + |path|, []);
    assert FormatFields(0, policy, env, s, at, []) == Prefixed(ReadyWords(ReadyCount(|path|)), r1);
  }

  /** Where the fields of a format request are, as the worker finds
      them. */
  lemma FormatMessageFields(s: seq<byte>, at: nat, path: seq<byte>, text: seq<byte>, extra: seq<byte>)
    requires |path| < U32Limit && |text| < U32Limit && |extra| < U32Limit
    requires at <= |s| && FormatMessage(path, text, extra) <= s[at..]
    ensures at + 4 <= |s| && DecodeU32(s[at..at + 4]) == 7
    ensures
      var b := at + 4;
      && FieldAt(s, b) == Some(path)
      && FieldAt(s, b + 4 + |path|) == Some(text)
      && FieldAt(s, b + 4 + |path| + 4 + |text|) == Some(extra)
      && Aligned(s, b + 4 + |path| + 4 + |text| + 4 + |extra|)
  {
    FormatMessageAt(s, at, path, text, extra);
    var b := at + 4;
    assert b + 4 + |path| == at + 8 + |path|;
    assert b + 4 + |path| + 4 + |text| == at + 12 + |path| + |text|;
    assert b + 4 + |path| + 4 + |text| + 4 + |extra| == at + 16 + |path| + |text| + |extra|;
    FieldAtVariable(s, b, path);
    FieldAtVariable(s, b + 4 + |path|, text);
    FieldAtVariable(s, b + 4 + |path| + 4 + |text|, extra);
  }

  /** The fields of a well-formed format request, from `at` on, are read
      in full: the file text and the parsed configuration, with a ready
      signal for each later chunk of each field. */
  lemma FormatFieldsRead(policy: Policy, env: Env, s: seq<byte>, at: nat,
                         path: seq<byte>, text: seq<byte>, extra: seq<byte>)
    requires FieldAt(s, at) == Some(path)
    requires FieldAt(s, at + 4 + |path|) == Some(text)
    requires FieldAt(s, at + 4 + |path| + 4 + |text|) == Some(extra)
    requires Aligned(s, at + 4 + |path| + 4 + |text| + 4 + |extra|)
    requires env.utf8(path) && env.utf8(text) && env.utf8(extra) && env.parse(extra).Some?
    ensures
      var out := ReadyWords(ReadyCount(|path|)) + (ReadyWords(ReadyCount(|text|)) + ReadyWords(ReadyCount(|extra|)));
      ReadAs(FormatFields(0, policy, env, s, at, []), text, env.parse(extra).value,
             at + 4 + |path| + 4 + |text| + 4 + |extra| + 4, out)
  {
    var c1 := at + 4 + |path|;
    var c2 := c1 + 4 + |text|;
    var w1, w2 := ReadyWords(ReadyCount(|text|)), ReadyWords(ReadyCount(|extra|));
    var x := env.parse(extra).value;
    ExtraFieldRead(policy, env, s, c2, text, extra);
    FileTextFieldRead(policy, env, s, c1, text, x, c2 + 4 + |extra| + 4, w2);
    PathFieldRead(policy, env, s, at, path, text, x, c2 + 4 + |extra| + 4, w1 + w2);
  }

  /** The answer to a format request whose fields were read in full,
      laid out: a failure, the "unchanged" answer or the changed text. */
  function Formatted(env: Env, s: seq<byte>, text: seq<byte>, style: string, c: nat, out: seq<byte>): Effect
    requires env.Valid()
  {
    match env.format(text, style)
    case None =>
      var m := env.diagnostic(FormatFailed);
      if c + 4 * ReadyCount(|m|) <= |s| then Replied(c + 4 * ReadyCount(|m|), out + FailureResponse(m), Keep)
      else Stopped
    case Some(t) =>
      if t == text then Replied(c, out + IntResponse(0), Keep)
      else if c + 4 * ReadyCount(|t|) <= |s| then Replied(c + 4 * ReadyCount(|t|), out + ChangedResponse(t), Keep)
      else Stopped
  }

  lemma SettledFormatted(env: Env, s: seq<byte>, text: seq<byte>, style: string, c: nat, out: seq<byte>)
    requires env.Valid()
    ensures Settled(env, s, After(out, FormattedStep(env, text, style, s, c)), Keep)
              == Formatted(env, s, text, style, c, out)
  {
    match env.format(text, style)
    case None =>
      var m := env.diagnostic(FormatFailed);
      assert out + [] + FailureResponse(m) == out + FailureResponse(m);
    case Some(t) =>
  }

  /** The failure answer to fault `f` raised at input position `c` after
      `out` was written: the diagnostic, whose later chunks each wait for
      a ready signal taken from `c` on. */
  function Diagnosed(env: Env, s: seq<byte>, f: Fault, c: nat, out: seq<byte>): Effect
    requires env.Valid()
  {
    var m := env.diagnostic(f);
    if c + 4 * ReadyCount(|m|) <= |s| then Replied(c + 4 * ReadyCount(|m|), out + FailureResponse(m), Keep)
    else Stopped
  }

  /** A diagnostic that needs no ready signal is answered at once. */
  lemma DiagnosedQuiet(env: Env, s: seq<byte>, f: Fault, c: nat, out: seq<byte>)
    requires env.Valid() && c <= |s| && ReadyCount(|env.diagnostic(f)|) == 0
    ensures Diagnosed(env, s, f, c, out) == Replied(c, out + FailureResponse(env.diagnostic(f)), Keep)
  {
  }

  /** The answer to a format request whose fields were read in full:
      the diagnostic when one of the three configurations cannot be
      translated, otherwise the formatter's answer under the resolved
      style. */
  function Answered(env: Env, s: seq<byte>, text: seq<byte>, global: Json, plugin: Json, x: Json,
                    c: nat, out: seq<byte>): Effect
    requires env.Valid()
  {
    match Resolved(global, plugin, x)
    case None => Diagnosed(env, s, Untranslatable, c, out)
    case Some(r) => Formatted(env, s, text, StyleText(r), c, out)
  }

  lemma SettledStyled(env: Env, s: seq<byte>, text: seq<byte>, global: Json, plugin: Json, x: Json,
                      c: nat, out: seq<byte>)
    requires env.Valid()
    ensures Settled(env, s, After(out, StyledStep(env, text, global, plugin, x, s, c)), Keep)
              == Answered(env, s, text, global, plugin, x, c, out)
  {
    match Resolved(global, plugin, x)
    case None =>
      var m := env.diagnostic(Untranslatable);
      assert out + [] + FailureResponse(m) == out + FailureResponse(m);
    case Some(r) =>
      SettledFormatted(env, s, text, StyleText(r), c, out);
  }

  /** A format request whose fields were read in full, answered. */
  lemma ServeFormatted(policy: Policy, env: Env, global: Json, plugin: Json, s: seq<byte>, at: nat,
                       text: seq<byte>, x: Json, c: nat, out: seq<byte>)
    requires env.Valid() && at + 4 <= |s| && DecodeU32(s[at..at + 4]) == 7
    requires ReadAs(FormatFields(0, policy, env, s, at + 4, []), text, x, c, out)
    ensures Serve(policy, env, global, plugin, s, at) == Answered(env, s, text, global, plugin, x, c, out)
  {
    SettledStyled(env, s, text, global, plugin, x, c, out);
  }

  /** The position just after a format request at `at`: its kind, the
      three length-prefixed fields and the sentinel. */
  function FormatEnd(at: nat, path: seq<byte>, text: seq<byte>, extra: seq<byte>): nat
  {
    at + 20 + |path| + |text| + |extra|
  }

  /** A well-formed format request from `at` on: its kind, and its
      fields read in full. */
  lemma FormatMessageRead(policy: Policy, env: Env, s: seq<byte>, at: nat,
                          path: seq<byte>, text: seq<byte>, extra: seq<byte>)
    requires |path| < U32Limit && |text| < U32Limit && |extra| < U32Limit
    requires at <= |s| && FormatMessage(path, text, extra) <= s[at..]
    requires env.utf8(path) && env.utf8(text) && env.utf8(extra) && env.parse(extra).Some?
    ensures at + 4 <= |s| && DecodeU32(s[at..at + 4]) == 7
    ensures
      var out := ReadyWords(ReadyCount(|path|)) + (ReadyWords(ReadyCount(|text|)) + ReadyWords(ReadyCount(|extra|)));
      ReadAs(FormatFields(0, policy, env, s, at + 4, []), text, env.parse(extra).value,
             FormatEnd(at, path, text, extra), out)
  {
    FormatMessageFields(s, at, path, text, extra);
    FormatFieldsRead(policy, env, s, at + 4, path, text, extra);
    assert at + 4 + 4 + |path| + 4 + |text| + 4 + |extra| + 4 == FormatEnd(at, path, text, extra);
  }

  /** A well-formed format request: the formatter's answer for the file
      text under the style resolved from the global, plugin and
      per-request configurations. Unchanged text is answered with 0,
      changed text with 1 and the new text, whose later chunks each wait
      for a ready signal; a formatter failure, or a configuration that
      cannot be translated, with the diagnostic. The configurations do
      not change. */
  lemma ServeFormat(policy: Policy, env: Env, global: Json, plugin: Json, s: seq<byte>, at: nat,
                    path: seq<byte>, text: seq<byte>, extra: seq<byte>)
    requires env.Valid() && |path| < U32Limit && |text| < U32Limit && |extra| < U32Limit
    requires at <= |s| && FormatMessage(path, text, extra) <= s[at..]
    requires env.utf8(path) && env.utf8(text) && env.utf8(extra) && env.parse(extra).Some?
    ensures
      var out := ReadyWords(ReadyCount(|path|)) + (ReadyWords(ReadyCount(|text|)) + ReadyWords(ReadyCount(|extra|)));
      Serve(policy, env, global, plugin, s, at)
        == Answered(env, s, text, global, plugin, env.parse(extra).value, FormatEnd(at, path, text, extra), out)
  {
    FormatMessageRead(policy, env, s, at, path, text, extra);
    var out := ReadyWords(ReadyCount(|path|)) + (ReadyWords(ReadyCount(|text|)) + ReadyWords(ReadyCount(|extra|)));
    ServeFormatted(policy, env, global, plugin, s, at, text, env.parse(extra).value, FormatEnd(at, path, text, extra), out);
  }

  /** Four bytes other than the sentinel where the sentinel belongs. */
  lemma NotAligned(s: seq<byte>, at: nat, w: seq<byte>)
    requires |w| == 4 && w != Sentinel && at <= |s| && w <= s[at..]
    ensures !Aligned(s, at)
  {
    assert s[at..][..4] == w;
  }

  /** Where the parts of a message without fields are when `w` stands
      where its sentinel belongs. */
  lemma BareMisalignedAt(s: seq<byte>, at: nat, kind: nat, w: seq<byte>)
    requires kind < U32Limit && |w| == 4 && w != Sentinel
    requires at <= |s| && EncodeU32(kind) + w <= s[at..]
    ensures at + 8 <= |s| && DecodeU32(s[at..at + 4]) == kind && !Aligned(s, at + 4)
  {
    Behind(s, at, EncodeU32(kind), w);
    WordAt(s, at, kind);
    NotAligned(s, at + 4, w);
  }

  /** Where the parts of a configuration message are when `w` stands
      where its sentinel belongs. */
  lemma ConfigMisalignedAt(s: seq<byte>, at: nat, kind: nat, d: seq<byte>, w: seq<byte>)
    requires kind < U32Limit && |d| < U32Limit && |w| == 4 && w != Sentinel
    requires at <= |s| && EncodeU32(kind) + Variable(d) + w <= s[at..]
    ensures at + 12 + |d| <= |s| && DecodeU32(s[at..at + 4]) == kind
    ensures FieldAt(s, at + 4) == Some(d) && !Aligned(s, at + 8 + |d|)
  {
    Behind(s, at, EncodeU32(kind) + Variable(d), w);
    Behind(s, at, EncodeU32(kind), Variable(d));
    WordAt(s, at, kind);
    FieldAtVariable(s, at + 4, d);
    NotAligned(s, at + 8 + |d|, w);
  }

  /** The kinds whose message has no fields. */
  predicate Bare(kind: nat)
  {
    kind == 0 || kind == 1 || kind == 2 || kind == 3 || kind == 6 || kind == 8
  }

  /** The code as written, on a message without fields whose sentinel is
      wrong: building the exit message raises, the fault is answered with
      its diagnostic and the loop goes on to read the next message, even
      after a close request. */
  lemma MisalignedReported(env: Env, global: Json, plugin: Json, s: seq<byte>, at: nat, kind: nat, w: seq<byte>)
    requires env.Valid() && Bare(kind) && |w| == 4 && w != Sentinel
    requires at <= |s| && EncodeU32(kind) + w <= s[at..]
    ensures
      var m := env.diagnostic(Misaligned);
      var c := at + 8 + 4 * ReadyCount(|m|);
      Serve(Report, env, global, plugin, s, at) == if c <= |s| then Replied(c, FailureResponse(m), Keep) else Stopped
  {
    BareMisalignedAt(s, at, kind, w);
  }

  /** As intended, a message without fields whose sentinel is wrong ends
      the worker. */
  lemma MisalignedStops(env: Env, global: Json, plugin: Json, s: seq<byte>, at: nat, kind: nat, w: seq<byte>)
    requires env.Valid() && Bare(kind) && |w| == 4 && w != Sentinel
    requires at <= |s| && EncodeU32(kind) + w <= s[at..]
    ensures Serve(Stop, env, global, plugin, s, at) == Stopped
  {
    BareMisalignedAt(s, at, kind, w);
  }

  /** The code as written, on an accepted configuration followed by
      something other than the sentinel: the fault is answered with its
      diagnostic, yet the configuration has already been replaced. */
  lemma MisalignedConfigReported(env: Env, global: Json, plugin: Json, s: seq<byte>, at: nat,
                                 kind: nat, d: seq<byte>, w: seq<byte>)
    requires env.Valid() && (kind == 4 || kind == 5) && |d| < U32Limit && |w| == 4 && w != Sentinel
    requires at <= |s| && EncodeU32(kind) + Variable(d) + w <= s[at..]
    requires env.utf8(d) && env.parse(d).Some?
    ensures
      var x := env.parse(d).value;
      var m := env.diagnostic(Misaligned);
      var c := at + 12 + |d| + 4 * ReadyCount(|m|);
      var u := if kind == 4 then SetGlobal(x) else SetPlugin(x);
      Serve(Report, env, global, plugin, s, at) ==
        if c <= |s| then Replied(c, ReadyWords(ReadyCount(|d|)) + FailureResponse(m), u) else Stopped
  {
    ConfigMisalignedAt(s, at, kind, d, w);
  }

  /** As intended, a configuration followed by something other than the
      sentinel ends the worker. */
  lemma MisalignedConfigStops(env: Env, global: Json, plugin: Json, s: seq<byte>, at: nat,
                              kind: nat, d: seq<byte>, w: seq<byte>)
    requires env.Valid() && (kind == 4 || kind == 5) && |d| < U32Limit && |w| == 4 && w != Sentinel
    requires at <= |s| && EncodeU32(kind) + Variable(d) + w <= s[at..]
    requires env.utf8(d) && env.parse(d).Some?
    ensures Serve(Stop, env, global, plugin, s, at) == Stopped
  {
    ConfigMisalignedAt(s, at, kind, d, w);
  }

  /** `r` is a format request whose reading raised fault `f` at input
      position `c`, after the ready signals `w` were written. */
  predicate BrokeAs(r: Request, f: Fault, c: nat, w: seq<byte>)
  {
    r.Broke? && r.e.Raised? && r.e.fault == f && r.e.at == c && r.e.out == w
  }

  /** `r` is a format request whose reading ended the worker. */
  predicate HaltedIn(r: Request)
  {
    r.Broke? && r.e.Halted?
  }

  /** Where the kind and the file path of a format request are. */
  lemma FormatHeadAt(s: seq<byte>, at: nat, path: seq<byte>)
    requires |path| < U32Limit && at <= |s| && EncodeU32(7) + Variable(path) <= s[at..]
    ensures at + 4 <= |s| && DecodeU32(s[at..at + 4]) == 7 && FieldAt(s, at + 4) == Some(path)
  {
    Behind(s, at, EncodeU32(7), Variable(path));
    WordAt(s, at, 7);
    FieldAtVariable(s, at + 4, path);
  }

  /** Where the file text of a format request is. */
  lemma FormatTextAt(s: seq<byte>, at: nat, path: seq<byte>, text: seq<byte>)
    requires |path| < U32Limit && |text| < U32Limit
    requires at <= |s| && EncodeU32(7) + Variable(path) + Variable(text) <= s[at..]
    ensures at + 4 <= |s| && DecodeU32(s[at..at + 4]) == 7 && FieldAt(s, at + 4) == Some(path)
    ensures FieldAt(s, at + 4 + 4 + |path|) == Some(text)
  {
    Behind(s, at, EncodeU32(7) + Variable(path), Variable(text));
    FormatHeadAt(s, at, path);
    FieldAtVariable(s, at + 4 + 4 + |path|, text);
  }

  /** Where the per-request configuration of a format request is. */
  lemma FormatExtraAt(s: seq<byte>, at: nat, path: seq<byte>, text: seq<byte>, extra: seq<byte>)
    requires |path| < U32Limit && |text| < U32Limit && |extra| < U32Limit
    requires at <= |s| && EncodeU32(7) + Variable(path) + Variable(text) + Variable(extra) <= s[at..]
    ensures at + 4 <= |s| && DecodeU32(s[at..at + 4]) == 7 && FieldAt(s, at + 4) == Some(path)
    ensures FieldAt(s, at + 4 + 4 + |path|) == Some(text)
    ensures FieldAt(s, at + 4 + 4 + |path| + 4 + |text|) == Some(extra)
  {
    Behind(s, at, EncodeU32(7) + Variable(path) + Variable(text), Variable(extra));
    FormatTextAt(s, at, path, text);
    FieldAtVariable(s, at + 4 + 4 + |path| + 4 + |text|, extra);
  }

  /** Where the parts of a format request are when `w` stands where its
      sentinel belongs. */
  lemma FormatMisalignedAt(s: seq<byte>, at: nat, path: seq<byte>, text: seq<byte>, extra: seq<byte>, w: seq<byte>)
    requires |path| < U32Limit && |text| < U32Limit && |extra| < U32Limit && |w| == 4 && w != Sentinel
    requires at <= |s| && EncodeU32(7) + Variable(path) + Variable(text) + Variable(extra) + w <= s[at..]
    ensures at + 4 <= |s| && DecodeU32(s[at..at + 4]) == 7 && FieldAt(s, at + 4) == Some(path)
    ensures FieldAt(s, at + 4 + 4 + |path|) == Some(text)
    ensures FieldAt(s, at + 4 + 4 + |path| + 4 + |text|) == Some(extra)
    ensures var e := at + 4 + 4 + |path| + 4 + |text| + 4 + |extra|; e + 4 <= |s| && !Aligned(s, e)
  {
    var head := EncodeU32(7) + Variable(path) + Variable(text) + Variable(extra);
    Behind(s, at, head, w);
    FormatExtraAt(s, at, path, text, extra);
    NotAligned(s, at + 4 + 4 + |path| + 4 + |text| + 4 + |extra|, w);
  }

  /** A file path that is not UTF-8 raises once its field is read. */
  lemma PathFieldBroke(policy: Policy, env: Env, s: seq<byte>, at: nat, path: seq<byte>)
    requires FieldAt(s, at) == Some(path) && !env.utf8(path)
    ensures BrokeAs(FormatFields(0, policy, env, s, at, []), NotUtf8, at + 4 + |path|, ReadyWords(ReadyCount(|path|)))
  {
  }

  /** A UTF-8 file path, then a file text that is not UTF-8: reading
      raises once the text's field is read. */
  lemma TextFieldBroke(policy: Policy, env: Env, s: seq<byte>, at: nat, path: seq<byte>, next: nat, text: seq<byte>)
    requires FieldAt(s, at) == Some(path) && env.utf8(path) && next == at + 4 + |path|
    requires FieldAt(s, next) == Some(text) && !env.utf8(text)
    ensures BrokeAs(FormatFields(0, policy, env, s, at, []), NotUtf8, next + 4 + |text|,
                    ReadyWords(ReadyCount(|path|)) + ReadyWords(ReadyCount(|text|)))
  {
  }

  /** A UTF-8 file path and file text, then a per-request configuration
      that is not UTF-8 JSON: reading raises once the configuration's
      field is read, before the sentinel after it. */
  lemma ExtraFieldBroke(policy: Policy, env: Env, s: seq<byte>, at: nat, path: seq<byte>, next: nat, text: seq<byte>,
                        next2: nat, extra: seq<byte>)
    requires FieldAt(s, at) == Some(path) && env.utf8(path) && next == at + 4 + |path|
    requires FieldAt(s, next) == Some(text) && env.utf8(text) && next2 == next + 4 + |text|
    requires FieldAt(s, next2) == Some(extra) && !(env.utf8(extra) && env.parse(extra).Some?)
    ensures BrokeAs(FormatFields(0, policy, env, s, at, []), if env.utf8(extra) then NotJson else NotUtf8,
                    next2 + 4 + |extra|,
                    ReadyWords(ReadyCount(|path|)) + (ReadyWords(ReadyCount(|text|)) + ReadyWords(ReadyCount(|extra|))))
  {
  }

  /** An accepted per-request configuration followed by something other
      than the sentinel: the code as written raises once the four bytes
      are consumed, the intended behaviour ends the worker. */
  lemma ExtraMisaligned(env: Env, s: seq<byte>, at: nat, text: seq<byte>, extra: seq<byte>, end: nat)
    requires FieldAt(s, at) == Some(extra) && env.utf8(extra) && env.parse(extra).Some? && end == at + 4 + |extra|
    requires !Aligned(s, end) && end + 4 <= |s|
    ensures BrokeAs(FormatFields(2, Report, env, s, at, text), Misaligned, end + 4, ReadyWords(ReadyCount(|extra|)))
    ensures HaltedIn(FormatFields(2, Stop, env, s, at, text))
  {
    assert ReadyWords(ReadyCount(|extra|)) + [] == ReadyWords(ReadyCount(|extra|));
  }

  /** A UTF-8 file text, then a per-request configuration whose reading
      raises. */
  lemma TextThenBroke(policy: Policy, env: Env, s: seq<byte>, at: nat, text: seq<byte>, next: nat, extra: seq<byte>,
                      f: Fault, c: nat, w: seq<byte>)
    requires FieldAt(s, at) == Some(text) && env.utf8(text) && next == at + 4 + |text| && FieldAt(s, next) == Some(extra)
    requires BrokeAs(FormatFields(2, policy, env, s, next, text), f, c, w)
    ensures BrokeAs(FormatFields(1, policy, env, s, at, []), f, c, ReadyWords(ReadyCount(|text|)) + w)
  {
  }

  /** A UTF-8 file text, then a per-request configuration whose reading
      ends the worker. */
  lemma TextThenHalted(policy: Policy, env: Env, s: seq<byte>, at: nat, text: seq<byte>, next: nat, extra: seq<byte>)
    requires FieldAt(s, at) == Some(text) && env.utf8(text) && next == at + 4 + |text| && FieldAt(s, next) == Some(extra)
    requires HaltedIn(FormatFields(2, policy, env, s, next, text))
    ensures HaltedIn(FormatFields(1, policy, env, s, at, []))
  {
  }

  /** A UTF-8 file path, then fields whose reading raises. */
  lemma PathThenBroke(policy: Policy, env: Env, s: seq<byte>, at: nat, path: seq<byte>, next: nat, text: seq<byte>,
                      f: Fault, c: nat, w: seq<byte>)
    requires FieldAt(s, at) == Some(path) && env.utf8(path) && next == at + 4 + |path| && FieldAt(s, next) == Some(text)
    requires BrokeAs(FormatFields(1, policy, env, s, next, []), f, c, w)
    ensures BrokeAs(FormatFields(0, policy, env, s, at, []), f, c, ReadyWords(ReadyCount(|path|)) + w)
  {
    assert FormatFields(0, policy, env, s, at, [])
        == Prefixed(ReadyWords(ReadyCount(|path|)), FormatFields(1, policy, env, s, next, []));
  }

  /** A UTF-8 file path, then fields whose reading ends the worker. */
  lemma PathThenHalted(policy: Policy, env: Env, s: seq<byte>, at: nat, path: seq<byte>, next: nat, text: seq<byte>)
    requires FieldAt(s, at) == Some(path) && env.utf8(path) && next == at + 4 + |path| && FieldAt(s, next) == Some(text)
    requires HaltedIn(FormatFields(1, policy, env, s, next, []))
    ensures HaltedIn(FormatFields(0, policy, env, s, at, []))
  {
    assert FormatFields(0, policy, env, s, at, [])
        == Prefixed(ReadyWords(ReadyCount(|path|)), FormatFields(1, policy, env, s, next, []));
  }

  /** A format request whose reading raised: the diagnostic, after the
      ready signals written while reading; the configurations do not
      change. */
  lemma ServeBroke(policy: Policy, env: Env, global: Json, plugin: Json, s: seq<byte>, at: nat, f: Fault, c: nat, w: seq<byte>)
    requires env.Valid() && at + 4 <= |s| && DecodeU32(s[at..at + 4]) == 7
    requires BrokeAs(FormatFields(0, policy, env, s, at + 4, []), f, c, w)
    ensures Serve(policy, env, global, plugin, s, at) == Diagnosed(env, s, f, c, w)
  {
  }

  /** A format request whose reading ended the worker. */
  lemma ServeHalted(policy: Policy, env: Env, global: Json, plugin: Json, s: seq<byte>, at: nat)
    requires env.Valid() && at + 4 <= |s| && DecodeU32(s[at..at + 4]) == 7
    requires HaltedIn(FormatFields(0, policy, env, s, at + 4, []))
    ensures Serve(policy, env, global, plugin, s, at) == Stopped
  {
  }

  /** A format request whose file path is not UTF-8: the diagnostic,
      after a ready signal for each later chunk of the path. Nothing
      after the path is read and nothing changes. */
  lemma FormatPathRejected(policy: Policy, env: Env, global: Json, plugin: Json, s: seq<byte>, at: nat, path: seq<byte>)
    requires env.Valid() && |path| < U32Limit && at <= |s| && EncodeU32(7) + Variable(path) <= s[at..]
    requires !env.utf8(path)
    ensures Serve(policy, env, global, plugin, s, at)
              == Diagnosed(env, s, NotUtf8, at + 4 + 4 + |path|, ReadyWords(ReadyCount(|path|)))
  {
    FormatHeadAt(s, at, path);
    PathFieldBroke(policy, env, s, at + 4, path);
    ServeBroke(policy, env, global, plugin, s, at, NotUtf8, at + 4 + 4 + |path|, ReadyWords(ReadyCount(|path|)));
  }

  /** The fields of a format request whose file text is not UTF-8. */
  lemma TextRejectedRead(policy: Policy, env: Env, s: seq<byte>, at: nat, path: seq<byte>, text: seq<byte>)
    requires |path| < U32Limit && |text| < U32Limit
    requires at <= |s| && EncodeU32(7) + Variable(path) + Variable(text) <= s[at..]
    requires env.utf8(path) && !env.utf8(text)
    ensures at + 4 <= |s| && DecodeU32(s[at..at + 4]) == 7
    ensures BrokeAs(FormatFields(0, policy, env, s, at + 4, []), NotUtf8, at + 4 + 4 + |path| + 4 + |text|,
                    ReadyWords(ReadyCount(|path|)) + ReadyWords(ReadyCount(|text|)))
  {
    FormatTextAt(s, at, path, text);
    TextFieldBroke(policy, env, s, at + 4, path, at + 4 + 4 + |path|, text);
  }

  /** A format request whose file text is not UTF-8: the diagnostic,
      after the ready signals for the path and the text. Nothing after
      the text is read and nothing changes. */
  lemma FormatTextRejected(policy: Policy, env: Env, global: Json, plugin: Json, s: seq<byte>, at: nat,
                           path: seq<byte>, text: seq<byte>)
    requires env.Valid() && |path| < U32Limit && |text| < U32Limit
    requires at <= |s| && EncodeU32(7) + Variable(path) + Variable(text) <= s[at..]
    requires env.utf8(path) && !env.utf8(text)
    ensures
      var out := ReadyWords(ReadyCount(|path|)) + ReadyWords(ReadyCount(|text|));
      Serve(policy, env, global, plugin, s, at) == Diagnosed(env, s, NotUtf8, at + 4 + 4 + |path| + 4 + |text|, out)
  {
    TextRejectedRead(policy, env, s, at, path, text);
    ServeBroke(policy, env, global, plugin, s, at, NotUtf8, at + 4 + 4 + |path| + 4 + |text|,
               ReadyWords(ReadyCount(|path|)) + ReadyWords(ReadyCount(|text|)));
  }

  /** The fields of a format request whose per-request configuration is
      not UTF-8 JSON. */
  lemma ExtraRejectedRead(policy: Policy, env: Env, s: seq<byte>, at: nat, path: seq<byte>, text: seq<byte>, extra: seq<byte>)
    requires |path| < U32Limit && |text| < U32Limit && |extra| < U32Limit
    requires at <= |s| && EncodeU32(7) + Variable(path) + Variable(text) + Variable(extra) <= s[at..]
    requires env.utf8(path) && env.utf8(text) && !(env.utf8(extra) && env.parse(extra).Some?)
    ensures at + 4 <= |s| && DecodeU32(s[at..at + 4]) == 7
    ensures BrokeAs(FormatFields(0, policy, env, s, at + 4, []), if env.utf8(extra) then NotJson else NotUtf8,
                    at + 4 + 4 + |path| + 4 + |text| + 4 + |extra|,
                    ReadyWords(ReadyCount(|path|)) + (ReadyWords(ReadyCount(|text|)) + ReadyWords(ReadyCount(|extra|))))
  {
    FormatExtraAt(s, at, path, text, extra);
    ExtraFieldBroke(policy, env, s, at + 4, path, at + 4 + 4 + |path|, text, at + 4 + 4 + |path| + 4 + |text|, extra);
  }

  /** A format request whose per-request configuration is not UTF-8, or
      not JSON: the diagnostic, after the ready signals for the three
      fields. The sentinel after the configuration is not read and
      nothing changes. */
  lemma FormatExtraRejected(policy: Policy, env: Env, global: Json, plugin: Json, s: seq<byte>, at: nat,
                            path: seq<byte>, text: seq<byte>, extra: seq<byte>)
    requires env.Valid() && |path| < U32Limit && |text| < U32Limit && |extra| < U32Limit
    requires at <= |s| && EncodeU32(7) + Variable(path) + Variable(text) + Variable(extra) <= s[at..]
    requires env.utf8(path) && env.utf8(text) && !(env.utf8(extra) && env.parse(extra).Some?)
    ensures
      var out := ReadyWords(ReadyCount(|path|)) + (ReadyWords(ReadyCount(|text|)) + ReadyWords(ReadyCount(|extra|)));
      var f := if env.utf8(extra) then NotJson else NotUtf8;
      Serve(policy, env, global, plugin, s, at) == Diagnosed(env, s, f, at + 4 + 4 + |path| + 4 + |text| + 4 + |extra|, out)
  {
    ExtraRejectedRead(policy, env, s, at, path, text, extra);
    ServeBroke(policy, env, global, plugin, s, at, if env.utf8(extra) then NotJson else NotUtf8,
               at + 4 + 4 + |path| + 4 + |text| + 4 + |extra|,
               ReadyWords(ReadyCount(|path|)) + (ReadyWords(ReadyCount(|text|)) + ReadyWords(ReadyCount(|extra|))));
  }

  /** The fields of a format request, from `at` on, when something
      other than the sentinel follows them: the code as written raises
      once the four bytes are consumed. */
  lemma MisalignedFieldsBroke(env: Env, s: seq<byte>, at: nat, path: seq<byte>, c1: nat, text: seq<byte>,
                              c2: nat, extra: seq<byte>, e: nat)
    requires FieldAt(s, at) == Some(path) && env.utf8(path) && c1 == at + 4 + |path|
    requires FieldAt(s, c1) == Some(text) && env.utf8(text) && c2 == c1 + 4 + |text|
    requires FieldAt(s, c2) == Some(extra) && env.utf8(extra) && env.parse(extra).Some? && e == c2 + 4 + |extra|
    requires !Aligned(s, e) && e + 4 <= |s|
    ensures BrokeAs(FormatFields(0, Report, env, s, at, []), Misaligned, e + 4,
                    ReadyWords(ReadyCount(|path|)) + (ReadyWords(ReadyCount(|text|)) + ReadyWords(ReadyCount(|extra|))))
  {
    var w1, w2 := ReadyWords(ReadyCount(|text|)), ReadyWords(ReadyCount(|extra|));
    ExtraMisaligned(env, s, c2, text, extra, e);
    TextThenBroke(Report, env, s, c1, text, c2, extra, Misaligned, e + 4, w2);
    PathThenBroke(Report, env, s, at, path, c1, text, Misaligned, e + 4, w1 + w2);
  }

  /** The fields of a format request, from `at` on, when something
      other than the sentinel follows them: as intended, the worker
      ends. */
  lemma MisalignedFieldsHalted(env: Env, s: seq<byte>, at: nat, path: seq<byte>, c1: nat, text: seq<byte>,
                               c2: nat, extra: seq<byte>, e: nat)
    requires FieldAt(s, at) == Some(path) && env.utf8(path) && c1 == at + 4 + |path|
    requires FieldAt(s, c1) == Some(text) && env.utf8(text) && c2 == c1 + 4 + |text|
    requires FieldAt(s, c2) == Some(extra) && env.utf8(extra) && env.parse(extra).Some? && e == c2 + 4 + |extra|
    requires !Aligned(s, e) && e + 4 <= |s|
    ensures HaltedIn(FormatFields(0, Stop, env, s, at, []))
  {
    ExtraMisaligned(env, s, c2, text, extra, e);
    TextThenHalted(Stop, env, s, c1, text, c2, extra);
    PathThenHalted(Stop, env, s, at, path, c1, text);
  }

  /** Where the fields of a format request are, as the worker finds
      them, when `w` stands where its sentinel belongs. */
  lemma MisalignedFields(s: seq<byte>, at: nat, path: seq<byte>, text: seq<byte>, extra: seq<byte>, w: seq<byte>)
    requires |path| < U32Limit && |text| < U32Limit && |extra| < U32Limit && |w| == 4 && w != Sentinel
    requires at <= |s| && EncodeU32(7) + Variable(path) + Variable(text) + Variable(extra) + w <= s[at..]
    ensures at + 4 <= |s| && DecodeU32(s[at..at + 4]) == 7
    ensures
      var b := at + 4;
      && FieldAt(s, b) == Some(path)
      && FieldAt(s, b + 4 + |path|) == Some(text)
      && FieldAt(s, b + 4 + |path| + 4 + |text|) == Some(extra)
      && !Aligned(s, b + 4 + |path| + 4 + |text| + 4 + |extra|)
      && b + 4 + |path| + 4 + |text| + 4 + |extra| + 4 == FormatEnd(at, path, text, extra) <= |s|
  {
    FormatMisalignedAt(s, at, path, text, extra, w);
  }

  /** The code as written, on a well-formed format request whose
      sentinel is wrong: the fault is answered with its diagnostic and
      the loop goes on. */
  lemma FormatMisalignedReported(env: Env, global: Json, plugin: Json, s: seq<byte>, at: nat,
                                 path: seq<byte>, text: seq<byte>, extra: seq<byte>, w: seq<byte>)
    requires env.Valid() && |path| < U32Limit && |text| < U32Limit && |extra| < U32Limit && |w| == 4 && w != Sentinel
    requires at <= |s| && EncodeU32(7) + Variable(path) + Variable(text) + Variable(extra) + w <= s[at..]
    requires env.utf8(path) && env.utf8(text) && env.utf8(extra) && env.parse(extra).Some?
    ensures
      var out := ReadyWords(ReadyCount(|path|)) + (ReadyWords(ReadyCount(|text|)) + ReadyWords(ReadyCount(|extra|)));
      Serve(Report, env, global, plugin, s, at) == Diagnosed(env, s, Misaligned, FormatEnd(at, path, text, extra), out)
  {
    var b := at + 4;
    MisalignedFields(s, at, path, text, extra, w);
    MisalignedFieldsBroke(env, s, b, path, b + 4 + |path|, text, b + 4 + |path| + 4 + |text|, extra,
                          b + 4 + |path| + 4 + |text| + 4 + |extra|);
    ServeBroke(Report, env, global, plugin, s, at, Misaligned, FormatEnd(at, path, text, extra),
               ReadyWords(ReadyCount(|path|)) + (ReadyWords(ReadyCount(|text|)) + ReadyWords(ReadyCount(|extra|))));
  }

  /** As intended, a format request whose sentinel is wrong ends the
      worker. */
  lemma FormatMisalignedStops(env: Env, global: Json, plugin: Json, s: seq<byte>, at: nat,
                              path: seq<byte>, text: seq<byte>, extra: seq<byte>, w: seq<byte>)
    requires env.Valid() && |path| < U32Limit && |text| < U32Limit && |extra| < U32Limit && |w| == 4 && w != Sentinel
    requires at <= |s| && EncodeU32(7) + Variable(path) + Variable(text) + Variable(extra) + w <= s[at..]
    requires env.utf8(path) && env.utf8(text) && env.utf8(extra) && env.parse(extra).Some?
    ensures Serve(Stop, env, global, plugin, s, at) == Stopped
  {
    var b := at + 4;
    MisalignedFields(s, at, path, text, extra, w);
    MisalignedFieldsHalted(env, s, b, path, b + 4 + |path|, text, b + 4 + |path| + 4 + |text|, extra,
                           b + 4 + |path| + 4 + |text| + 4 + |extra|);
    ServeHalted(Stop, env, global, plugin, s, at);
  }

  /** A well-formed format request where one of the global, plugin and
      per-request configurations cannot be translated (a JSON value other
      than an object, an empty string or a list of "newLineKind"): the
      diagnostic, raised after the sentinel, and nothing changes. A host
      can store such a value with kind 4 or 5, which accept any JSON. */
  lemma FormatUntranslatable(policy: Policy, env: Env, global: Json, plugin: Json, s: seq<byte>, at: nat,
                             path: seq<byte>, text: seq<byte>, extra: seq<byte>)
    requires env.Valid() && |path| < U32Limit && |text| < U32Limit && |extra| < U32Limit
    requires at <= |s| && FormatMessage(path, text, extra) <= s[at..]
    requires env.utf8(path) && env.utf8(text) && env.utf8(extra) && env.parse(extra).Some?
    requires Translation(global).None? || Translation(plugin).None? || Translation(env.parse(extra).value).None?
    ensures
      var out := ReadyWords(ReadyCount(|path|)) + (ReadyWords(ReadyCount(|text|)) + ReadyWords(ReadyCount(|extra|)));
      Serve(policy, env, global, plugin, s, at) == Diagnosed(env, s, Untranslatable, FormatEnd(at, path, text, extra), out)
  {
    ServeFormat(policy, env, global, plugin, s, at, path, text, extra);
    ResolvedValues(global, plugin, env.parse(extra).value);
  }

  /** A word above 8 read where a kind belongs is answered as an unknown
      kind. */
  lemma UnknownAsKind(policy: Policy, env: Env, global: Json, plugin: Json, s: seq<byte>, at: nat, kind: nat)
    requires env.Valid() && 8 < kind < U32Limit && at <= |s| && EncodeU32(kind) <= s[at..]
    ensures Serve(policy, env, global, plugin, s, at) == Diagnosed(env, s, UnknownKind(kind), at + 4, [])
  {
    ServeUnknown(policy, env, global, plugin, s, at, kind);
    assert [] + FailureResponse(env.diagnostic(UnknownKind(kind))) == FailureResponse(env.diagnostic(UnknownKind(kind)));
  }

  /** The sentinel read where a message's kind belongs is answered as an
      unknown kind. */
  lemma SentinelAsKind(policy: Policy, env: Env, global: Json, plugin: Json, s: seq<byte>, at: nat)
    requires env.Valid() && at <= |s| && Sentinel <= s[at..]
    ensures Serve(policy, env, global, plugin, s, at) == Diagnosed(env, s, UnknownKind(SentinelWord), at + 4, [])
  {
    SentinelIsWord(SentinelWord);
    ServeUnknown(policy, env, global, plugin, s, at, SentinelWord);
    assert [] + FailureResponse(env.diagnostic(UnknownKind(SentinelWord))) == FailureResponse(env.diagnostic(UnknownKind(SentinelWord)));
  }

  /** A configuration message that is rejected, with a diagnostic short
      enough to need no ready signal: the turn ends just before the
      message's sentinel, so the next turn reads that sentinel as a kind
      and answers a second failure. */
  lemma RejectedConfigThenSentinel(policy: Policy, env: Env, global: Json, plugin: Json, s: seq<byte>, at: nat,
                                   kind: nat, d: seq<byte>)
    requires env.Valid() && (kind == 4 || kind == 5) && |d| < U32Limit
    requires at <= |s| && ConfigMessage(kind, d) <= s[at..]
    requires !(env.utf8(d) && env.parse(d).Some?)
    requires ReadyCount(|env.diagnostic(if env.utf8(d) then NotJson else NotUtf8)|) == 0
    ensures
      var m := env.diagnostic(if env.utf8(d) then NotJson else NotUtf8);
      Serve(policy, env, global, plugin, s, at) == Replied(at + 8 + |d|, ReadyWords(ReadyCount(|d|)) + FailureResponse(m), Keep)
    ensures Serve(policy, env, global, plugin, s, at + 8 + |d|) == Diagnosed(env, s, UnknownKind(SentinelWord), at + 12 + |d|, [])
  {
    ConfigMessageAt(s, at, kind, d);
    ServeConfigRejected(policy, env, global, plugin, s, at, kind, d);
    SentinelAsKind(policy, env, global, plugin, s, at + 8 + |d|);
  }

  /** A format request whose per-request configuration is rejected, with
      a diagnostic short enough to need no ready signal: the turn ends just
      before the request's sentinel, and the next turn reads that sentinel
      as a kind and answers a second failure. */
  lemma RejectedExtraThenSentinel(policy: Policy, env: Env, global: Json, plugin: Json, s: seq<byte>, at: nat,
                                  path: seq<byte>, text: seq<byte>, extra: seq<byte>)
    requires env.Valid() && |path| < U32Limit && |text| < U32Limit && |extra| < U32Limit
    requires at <= |s| && FormatMessage(path, text, extra) <= s[at..]
    requires env.utf8(path) && env.utf8(text) && !(env.utf8(extra) && env.parse(extra).Some?)
    requires ReadyCount(|env.diagnostic(if env.utf8(extra) then NotJson else NotUtf8)|) == 0
    ensures
      var m := env.diagnostic(if env.utf8(extra) then NotJson else NotUtf8);
      var out := ReadyWords(ReadyCount(|path|)) + (ReadyWords(ReadyCount(|text|)) + ReadyWords(ReadyCount(|extra|)));
      Serve(policy, env, global, plugin, s, at)
        == Replied(at + 4 + 4 + |path| + 4 + |text| + 4 + |extra|, out + FailureResponse(m), Keep)
    ensures
      var c := at + 4 + 4 + |path| + 4 + |text| + 4 + |extra|;
      Serve(policy, env, global, plugin, s, c) == Diagnosed(env, s, UnknownKind(SentinelWord), c + 4, [])
  {
    Behind(s, at, EncodeU32(7) + Variable(path) + Variable(text) + Variable(extra), Sentinel);
    FormatMessageAt(s, at, path, text, extra);
    FormatExtraRejected(policy, env, global, plugin, s, at, path, text, extra);
    SentinelAsKind(policy, env, global, plugin, s, at + 4 + 4 + |path| + 4 + |text| + 4 + |extra|);
  }

  /** The turn of a format request whose file path is not UTF-8 ends
      right after the path, when the diagnostic needs no ready signal. */
  lemma PathRejectedTurn(policy: Policy, env: Env, global: Json, plugin: Json, s: seq<byte>, at: nat,
                   path: seq<byte>, text: seq<byte>, extra: seq<byte>)
    requires env.Valid() && |path| < U32Limit && |text| < U32Limit && |extra| < U32Limit
    requires at <= |s| && FormatMessage(path, text, extra) <= s[at..]
    requires !env.utf8(path) && ReadyCount(|env.diagnostic(NotUtf8)|) == 0
    ensures Serve(policy, env, global, plugin, s, at)
              == Replied(at + 8 + |path|, ReadyWords(ReadyCount(|path|)) + FailureResponse(env.diagnostic(NotUtf8)), Keep)
  {
    Behind(s, at, EncodeU32(7) + Variable(path), Variable(text) + Variable(extra) + Sentinel);
    FormatPathRejected(policy, env, global, plugin, s, at, path);
    DiagnosedQuiet(env, s, NotUtf8, at + 8 + |path|, ReadyWords(ReadyCount(|path|)));
  }

  /** The length word of a format request's file text, read where a kind
      belongs, is answered as an unknown kind when it is above 8. */
  lemma TextLengthAsKind(policy: Policy, env: Env, global: Json, plugin: Json, s: seq<byte>, at: nat,
                   path: seq<byte>, text: seq<byte>, extra: seq<byte>)
    requires env.Valid() && |path| < U32Limit && |text| < U32Limit && |extra| < U32Limit
    requires at <= |s| && FormatMessage(path, text, extra) <= s[at..]
    requires 8 < |text|
    ensures Serve(policy, env, global, plugin, s, at + 8 + |path|)
              == Diagnosed(env, s, UnknownKind(|text|), at + 8 + |path| + 4, [])
  {
    var c := at + 8 + |path|;
    assert c <= |s| && EncodeU32(|text|) <= s[c..] by {
      FormatMessageAt(s, at, path, text, extra);
      Behind(s, c, EncodeU32(|text|), text);
    }
    UnknownAsKind(policy, env, global, plugin, s, c, |text|);
  }

  /** A format request whose file path is not UTF-8, with a diagnostic
      short enough to need no ready signal: the turn ends right after the
      path, and the next turn reads the file text's length word as a
      message kind (here one above 8, so an unknown kind). */
  lemma PathRejectedThenTextLength(policy: Policy, env: Env, global: Json, plugin: Json, s: seq<byte>, at: nat,
                   path: seq<byte>, text: seq<byte>, extra: seq<byte>)
    requires env.Valid() && |path| < U32Limit && |text| < U32Limit && |extra| < U32Limit
    requires at <= |s| && FormatMessage(path, text, extra) <= s[at..]
    requires !env.utf8(path) && ReadyCount(|env.diagnostic(NotUtf8)|) == 0
    requires 8 < |text|
    ensures Serve(policy, env, global, plugin, s, at)
              == Replied(at + 8 + |path|, ReadyWords(ReadyCount(|path|)) + FailureResponse(env.diagnostic(NotUtf8)), Keep)
    ensures Serve(policy, env, global, plugin, s, at + 8 + |path|)
              == Diagnosed(env, s, UnknownKind(|text|), at + 8 + |path| + 4, [])
  {
    PathRejectedTurn(policy, env, global, plugin, s, at, path, text, extra);
    TextLengthAsKind(policy, env, global, plugin, s, at, path, text, extra);
  }

  /** The turn of a format request whose file text is not UTF-8 ends
      right after the text, when the diagnostic needs no ready signal. */
  lemma TextRejectedTurn(policy: Policy, env: Env, global: Json, plugin: Json, s: seq<byte>, at: nat,
                   path: seq<byte>, text: seq<byte>, extra: seq<byte>)
    requires env.Valid() && |path| < U32Limit && |text| < U32Limit && |extra| < U32Limit
    requires at <= |s| && FormatMessage(path, text, extra) <= s[at..]
    requires env.utf8(path) && !env.utf8(text) && ReadyCount(|env.diagnostic(NotUtf8)|) == 0
    ensures
      var out := ReadyWords(ReadyCount(|path|)) + ReadyWords(ReadyCount(|text|));
      Serve(policy, env, global, plugin, s, at)
        == Replied(at + 12 + |path| + |text|, out + FailureResponse(env.diagnostic(NotUtf8)), Keep)
  {
    Behind(s, at, EncodeU32(7) + Variable(path) + Variable(text), Variable(extra) + Sentinel);
    FormatTextRejected(policy, env, global, plugin, s, at, path, text);
    DiagnosedQuiet(env, s, NotUtf8, at + 12 + |path| + |text|,
                   ReadyWords(ReadyCount(|path|)) + ReadyWords(ReadyCount(|text|)));
  }

  /** The length word of a format request's per-request configuration,
      read where a kind belongs, is answered as an unknown kind when it is
      above 8. */
  lemma ExtraLengthAsKind(policy: Policy, env: Env, global: Json, plugin: Json, s: seq<byte>, at: nat,
                   path: seq<byte>, text: seq<byte>, extra: seq<byte>)
    requires env.Valid() && |path| < U32Limit && |text| < U32Limit && |extra| < U32Limit
    requires at <= |s| && FormatMessage(path, text, extra) <= s[at..]
    requires 8 < |extra|
    ensures Serve(policy, env, global, plugin, s, at + 12 + |path| + |text|)
              == Diagnosed(env, s, UnknownKind(|extra|), at + 12 + |path| + |text| + 4, [])
  {
    var c := at + 12 + |path| + |text|;
    assert c <= |s| && EncodeU32(|extra|) <= s[c..] by {
      FormatMessageAt(s, at, path, text, extra);
      Behind(s, c, EncodeU32(|extra|), extra);
    }
    UnknownAsKind(policy, env, global, plugin, s, c, |extra|);
  }

  /** Likewise for a file text that is not UTF-8: the next turn reads the
      per-request configuration's length word as a message kind. */
  lemma TextRejectedThenExtraLength(policy: Policy, env: Env, global: Json, plugin: Json, s: seq<byte>, at: nat,
                   path: seq<byte>, text: seq<byte>, extra: seq<byte>)
    requires env.Valid() && |path| < U32Limit && |text| < U32Limit && |extra| < U32Limit
    requires at <= |s| && FormatMessage(path, text, extra) <= s[at..]
    requires env.utf8(path) && !env.utf8(text) && ReadyCount(|env.diagnostic(NotUtf8)|) == 0
    requires 8 < |extra|
    ensures
      var out := ReadyWords(ReadyCount(|path|)) + ReadyWords(ReadyCount(|text|));
      Serve(policy, env, global, plugin, s, at)
        == Replied(at + 12 + |path| + |text|, out + FailureResponse(env.diagnostic(NotUtf8)), Keep)
    ensures Serve(policy, env, global, plugin, s, at + 12 + |path| + |text|)
              == Diagnosed(env, s, UnknownKind(|extra|), at + 12 + |path| + |text| + 4, [])
  {
    TextRejectedTurn(policy, env, global, plugin, s, at, path, text, extra);
    ExtraLengthAsKind(policy, env, global, plugin, s, at, path, text, extra);
  }

  /** The fields of a format request are read alike under both policies,
      unless the `Stop` policy ends the worker. */
  lemma {:induction false} FieldsAgree(stage: nat, env: Env, s: seq<byte>, at: nat, text: seq<byte>)
    requires stage <= 2
    decreases 2 - stage
    ensures FormatFields(stage, Stop, env, s, at, text) != Broke(Halted) ==>
              FormatFields(stage, Report, env, s, at, text) == FormatFields(stage, Stop, env, s, at, text)
  {
    if stage < 2 {
      match FieldAt(s, at)
      case None =>
      case Some(field) =>
        FieldsAgree(stage + 1, env, s, at + 4 + |field|, if stage == 1 then field else text);
    }
  }

  /** The two policies differ only where the `Stop` policy ends the
      worker: wherever it goes on, the code as written does the same. */
  lemma PoliciesAgree(env: Env, global: Json, plugin: Json, s: seq<byte>, at: nat)
    requires env.Valid()
    ensures Serve(Stop, env, global, plugin, s, at) != Stopped ==>
              Serve(Report, env, global, plugin, s, at) == Serve(Stop, env, global, plugin, s, at)
  {
    if at + 4 <= |s| && DecodeU32(s[at..at + 4]) == 7 {
      FieldsAgree(0, env, s, at + 4, []);
    }
  }

  /** Output that ends with the sentinel still does after more is
      written before it. */
  lemma EndsAfter(a: seq<byte>, b: seq<byte>)
    requires EndsWithSentinel(b)
    ensures EndsWithSentinel(a + b)
  {
    assert (a + b)[|a + b| - 4..] == b[|b| - 4..];
  }

  /** Each response ends with the sentinel. */
  lemma ResponsesEnd(v: nat, t: seq<byte>)
    requires v < U32Limit && |t| < U32Limit
    ensures EndsWithSentinel(SuccessResponse()) && EndsWithSentinel(IntResponse(v))
    ensures EndsWithSentinel(StringResponse(t)) && EndsWithSentinel(FailureResponse(t))
    ensures EndsWithSentinel(ChangedResponse(t))
  {
    FixedResponseShapes(v);
    FieldResponseShapes(t);
    assert IntResponse(v)[|IntResponse(v)| - 4..] == IntResponse(v)[8..];
  }

  /** How the body of the `try` block for a message whose fields start
      at `lo` may end: at an input position from `lo` to `hi`, with
      output ending in the sentinel when it finishes, and with nothing
      written and only the sentinel read when it closes. */
  predicate Bounded(e: Partial, lo: nat, hi: nat)
  {
    match e
    case Finished(a, o) => lo <= a <= hi && EndsWithSentinel(o)
    case Raised(_, a, _) => lo <= a <= hi
    case Closed(a, o) => a == lo + 4 && a <= hi && o == []
    case Halted => true
  }

  /** A format request's fields read from `lo` on, within `hi`: the
      fields end on a position in between, or reading them raised or
      stopped there. */
  predicate FieldsWithin(r: Request, lo: nat, hi: nat)
  {
    match r
    case Read(_, _, c, _) => lo <= c <= hi
    case Broke(e) => !e.Finished? && !e.Closed? && Bounded(e, lo, hi)
  }

  /** The four bytes at `at` that are not the sentinel. */
  lemma MismatchBounded(policy: Policy, s: seq<byte>, at: nat, lo: nat, out: seq<byte>)
    requires lo <= at
    ensures Bounded(Mismatch(policy, s, at, out), lo, |s|)
  {
  }

  /** The per-request configuration and the sentinel are read within
      the input. */
  lemma ExtraWithin(policy: Policy, env: Env, s: seq<byte>, at: nat, text: seq<byte>)
    ensures FieldsWithin(FormatFields(2, policy, env, s, at, text), at + 4, |s|)
  {
    match FieldAt(s, at)
    case None =>
    case Some(field) =>
      MismatchBounded(policy, s, at + 4 + |field|, at + 4, ReadyWords(ReadyCount(|field|)));
  }

  /** The file text and what follows it are read within the input. */
  lemma FileTextWithin(policy: Policy, env: Env, s: seq<byte>, at: nat)
    ensures FieldsWithin(FormatFields(1, policy, env, s, at, []), at + 4, |s|)
  {
    match FieldAt(s, at)
    case None =>
    case Some(field) =>
      ExtraWithin(policy, env, s, at + 4 + |field|, field);
  }

  /** The fields of a format request are read within the input. */
  lemma FieldsBounded(policy: Policy, env: Env, s: seq<byte>, at: nat)
    ensures FieldsWithin(FormatFields(0, policy, env, s, at, []), at + 4, |s|)
  {
    match FieldAt(s, at)
    case None =>
    case Some(field) =>
      FileTextWithin(policy, env, s, at + 4 + |field|);
  }

  /** The formatter's answer is written within the input. */
  lemma FormattedBounded(env: Env, text: seq<byte>, style: string, s: seq<byte>, lo: nat, c: nat, out: seq<byte>)
    requires env.Valid() && lo <= c <= |s|
    ensures Bounded(After(out, FormattedStep(env, text, style, s, c)), lo, |s|)
  {
    match env.format(text, style)
    case None =>
    case Some(t) =>
      ResponsesEnd(0, t);
      if t == text {
        EndsAfter(out, IntResponse(0));
      } else {
        EndsAfter(out, ChangedResponse(t));
      }
  }

  /** The answer after the fields of a format request is written within
      the input. */
  lemma StyledBounded(env: Env, text: seq<byte>, global: Json, plugin: Json, x: Json, s: seq<byte>,
                      lo: nat, c: nat, out: seq<byte>)
    requires env.Valid() && lo <= c <= |s|
    ensures Bounded(After(out, StyledStep(env, text, global, plugin, x, s, c)), lo, |s|)
  {
    match Resolved(global, plugin, x)
    case None =>
    case Some(r) =>
      FormattedBounded(env, text, StyleText(r), s, lo, c, out);
  }

  /** A format request is handled within the input. */
  lemma FormatBounded(policy: Policy, env: Env, global: Json, plugin: Json, s: seq<byte>, at: nat)
    requires env.Valid()
    ensures Bounded(FormatStep(policy, env, global, plugin, s, at), at, |s|)
    ensures !FormatStep(policy, env, global, plugin, s, at).Closed?
  {
    FieldsBounded(policy, env, s, at);
    match FormatFields(0, policy, env, s, at, [])
    case Broke(e) =>
    case Read(text, extra, next, out) =>
      StyledBounded(env, text, global, plugin, extra, s, at, next, out);
  }

  /** A configuration request is handled within the input. */
  lemma SetConfigBounded(policy: Policy, env: Env, s: seq<byte>, at: nat)
    ensures Bounded(SetConfigStep(policy, env, s, at), at, |s|)
    ensures !SetConfigStep(policy, env, s, at).Closed?
  {
    match FieldAt(s, at)
    case None =>
    case Some(d) =>
      ResponsesEnd(0, d);
      EndsAfter(ReadyWords(ReadyCount(|d|)), SuccessResponse());
      MismatchBounded(policy, s, at + 4 + |d|, at, ReadyWords(ReadyCount(|d|)));
  }

  /** The requests without fields are handled within the input. */
  lemma BareBounded(policy: Policy, env: Env, s: seq<byte>, at: nat, kind: nat)
    requires env.Valid()
    ensures Bounded(CloseStep(policy, s, at), at, |s|)
    ensures Bounded(VersionStep(policy, s, at), at, |s|) && !VersionStep(policy, s, at).Closed?
    ensures Bounded(AnswerStep(policy, s, at, Reply(env, kind)), at, |s|)
    ensures !AnswerStep(policy, s, at, Reply(env, kind)).Closed?
  {
    ResponsesEnd(SchemaVersion, Reply(env, kind));
  }

  /** The body of the `try` block reads at least the kind and stays
      within the input; only the close request closes. */
  lemma AttemptBounded(policy: Policy, env: Env, global: Json, plugin: Json, s: seq<byte>, at: nat)
    requires env.Valid()
    ensures Bounded(Attempt(policy, env, global, plugin, s, at), at + 4, |s|)
    ensures Attempt(policy, env, global, plugin, s, at).Closed? ==>
              at + 4 <= |s| && DecodeU32(s[at..at + 4]) == 8
  {
    if at + 4 <= |s| {
      var kind := DecodeU32(s[at..at + 4]);
      BareBounded(policy, env, s, at + 4, kind);
      SetConfigBounded(policy, env, s, at + 4);
      FormatBounded(policy, env, global, plugin, s, at + 4);
    }
  }

  /** The `except` clause keeps a turn within the input, and every
      answer it completes ends with the sentinel. */
  lemma SettledBounded(env: Env, s: seq<byte>, e: Partial, u: Update, lo: nat)
    requires env.Valid() && Bounded(e, lo, |s|)
    ensures match Settled(env, s, e, u)
            case Replied(c, out, _) => lo <= c <= |s| && EndsWithSentinel(out)
            case Exited(c, out) => e.Closed? && c == lo + 4 && out == []
            case Stopped => true
  {
    match e
    case Raised(f, a, out) =>
      var m := env.diagnostic(f);
      ResponsesEnd(0, m);
      EndsAfter(out, FailureResponse(m));
    case Finished(_, _) =>
    case Closed(_, _) =>
    case Halted =>
  }

  /** Every turn that goes on has read at least the kind of its message
      and no more than the input holds, and what it wrote ends with the
      sentinel; only kinds 4 and 5 change a configuration. A turn exits
      only on a close request, having read it and its sentinel and
      written nothing. */
  lemma ServeProgress(policy: Policy, env: Env, global: Json, plugin: Json, s: seq<byte>, at: nat)
    requires env.Valid()
    ensures match Serve(policy, env, global, plugin, s, at)
            case Replied(c, out, u) =>
              && at + 4 <= c <= |s| && EndsWithSentinel(out)
              && (u != Keep ==> var kind := DecodeU32(s[at..at + 4]); kind == 4 || kind == 5)
            case Exited(c, out) => c == at + 8 && out == [] && DecodeU32(s[at..at + 4]) == 8
            case Stopped => true
  {
    AttemptBounded(policy, env, global, plugin, s, at);
    SettledBounded(env, s, Attempt(policy, env, global, plugin, s, at), Requested(env, s, at), at + 4);
  }
}
