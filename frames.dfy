/** The byte layouts of what the worker writes in answer to a request,
    and of the variable-length fields the host sends. Every response
    starts with a status word (0 success, 1 failure) and ends with the
    sentinel. Ready signals travel on the other stream and are not part of
    these layouts. */
module Frames {
  import opened Bytes
  import opened Wrappers

  /** A variable-length field as it appears on one stream: the 4-byte
      length, then the payload (its chunking only paces it). */
  function Variable(p: seq<byte>): seq<byte>
    requires |p| < U32Limit
  {
    EncodeU32(|p|) + p
  }

  /** `send_success`: status 0, sentinel. */
  function SuccessResponse(): seq<byte>
  {
    EncodeU32(0) + Sentinel
  }

  /** `send_int`: status 0, the value, sentinel. */
  function IntResponse(v: nat): seq<byte>
    requires v < U32Limit
  {
    EncodeU32(0) + EncodeU32(v) + Sentinel
  }

  /** `send_string`: status 0, the payload as a variable field, sentinel. */
  function StringResponse(t: seq<byte>): seq<byte>
    requires |t| < U32Limit
  {
    EncodeU32(0) + Variable(t) + Sentinel
  }

  /** `send_failure`: status 1, the diagnostic as a variable field, sentinel. */
  function FailureResponse(d: seq<byte>): seq<byte>
    requires |d| < U32Limit
  {
    EncodeU32(1) + Variable(d) + Sentinel
  }

  /** The answer to a format request whose text changed: status 0, the
      changed flag 1, the new text as a variable field, sentinel. */
  function ChangedResponse(t: seq<byte>): seq<byte>
    requires |t| < U32Limit
  {
    EncodeU32(0) + EncodeU32(1) + Variable(t) + Sentinel
  }

  /** The payload of a variable field at the head of `s`, if all of it is
      there. */
  function VariableAt(s: seq<byte>): (r: Option<seq<byte>>)
    ensures r.Some? ==> |r.value| < U32Limit
  {
    if |s| < 4 then None
    else
      var n := DecodeU32(s[..4]);
      if |s| < 4 + n then None
      else
        EncodeDecode(s[..4]);
        assert Variable(s[4..4 + n]) == s[..4 + n];
        Some(s[4..4 + n])
  }

  /** A variable field is read back as exactly the payload that was
      written, whatever follows it. */
  lemma VariableRoundTrip(p: seq<byte>, rest: seq<byte>)
    requires |p| < U32Limit
    ensures VariableAt(Variable(p) + rest) == Some(p)
  {
    var s := Variable(p) + rest;
    assert s[..4] == EncodeU32(|p|);
    DecodeEncode(|p|);
    assert s[4..4 + |p|] == p;
  }

  /** A response made of a head, a variable field and the sentinel
      starts with the head, carries the payload right after it and ends
      with the sentinel. */
  lemma FieldResponse(head: seq<byte>, t: seq<byte>, r: seq<byte>)
    requires |t| < U32Limit && r == head + Variable(t) + Sentinel
    ensures r[..|head|] == head
    ensures VariableAt(r[|head|..]) == Some(t)
    ensures r[|r| - 4..] == Sentinel
  {
    assert r[|head|..] == Variable(t) + Sentinel;
    VariableRoundTrip(t, Sentinel);
  }

  /** The fixed-size responses: status 0, then the value for `send_int`,
      then the sentinel; a status is never mistaken for the sentinel. */
  lemma FixedResponseShapes(v: nat)
    requires v < U32Limit
    ensures SuccessResponse()[..4] == EncodeU32(0) && SuccessResponse()[4..] == Sentinel
    ensures IntResponse(v)[..4] == EncodeU32(0) && IntResponse(v)[4..8] == EncodeU32(v)
    ensures IntResponse(v)[8..] == Sentinel
    ensures EncodeU32(0) != Sentinel && EncodeU32(1) != Sentinel
  {
    SentinelIsWord(0);
    SentinelIsWord(1);
  }

  /** The responses that carry a payload: status 0 (and the changed flag
      1 for a format answer) or status 1, the payload, the sentinel. */
  lemma FieldResponseShapes(t: seq<byte>)
    requires |t| < U32Limit
    ensures StringResponse(t)[..4] == EncodeU32(0)
    ensures VariableAt(StringResponse(t)[4..]) == Some(t)
    ensures StringResponse(t)[|StringResponse(t)| - 4..] == Sentinel
    ensures FailureResponse(t)[..4] == EncodeU32(1)
    ensures VariableAt(FailureResponse(t)[4..]) == Some(t)
    ensures FailureResponse(t)[|FailureResponse(t)| - 4..] == Sentinel
    ensures ChangedResponse(t)[..8] == EncodeU32(0) + EncodeU32(1)
    ensures VariableAt(ChangedResponse(t)[8..]) == Some(t)
    ensures ChangedResponse(t)[|ChangedResponse(t)| - 4..] == Sentinel
  {
    FieldResponse(EncodeU32(0), t, StringResponse(t));
    FieldResponse(EncodeU32(1), t, FailureResponse(t));
    FieldResponse(EncodeU32(0) + EncodeU32(1), t, ChangedResponse(t));
  }
}
