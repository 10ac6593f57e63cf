/** What a request interceptor may add to a request: headers the protocol does not own and that cannot split it. */
module Interception {
  import opened Framing
  import opened Text

  const MAX_INTERCEPTED_BYTES: nat := 0x4000

  predicate IsTokenChar(c: char) { IsAlpha(c) || IsDigit(c) || c in "!#$%&'*+-.^_`|~" }

  predicate IsToken(text: string) { text != "" && forall i :: 0 <= i < |text| ==> IsTokenChar(text[i]) }

  const RESERVED: set<string> := {
    "accept-encoding", "connection", "content-encoding", "content-length", "expect", "host", "if-match",
    "if-modified-since", "if-none-match", "if-range", "if-unmodified-since", "keep-alive", "proxy-connection",
    "range", "te", "trailer", "transfer-encoding", "upgrade", "user-agent"
  }

  predicate IsReserved(name: string) { Lower(name) in RESERVED }

  predicate IsSafeChar(c: char) { (c >= ' ' || c == '\t') && c as int != 0x7F }

  predicate IsSafeValue(value: string) { value != "" && forall i :: 0 <= i < |value| ==> IsSafeChar(value[i]) }

  predicate IsInterceptable(header: Header) {
    IsToken(header.name) && !IsReserved(header.name) && IsSafeValue(header.value)
  }

  /** Bytes on the wire: `name: value` and the line end. */
  function WireBytes(headers: seq<Header>): nat {
    if headers == [] then 0
    else
      var last := headers[|headers| - 1];
      WireBytes(headers[..|headers| - 1]) + |last.name| + 2 + |last.value| + 2
  }

  ghost predicate NoRepeats(headers: seq<Header>) {
    forall i, j :: 0 <= i < j < |headers| ==> Lower(headers[i].name) != Lower(headers[j].name)
  }

  ghost predicate Admissible(headers: seq<Header>) {
    && (forall i :: 0 <= i < |headers| ==> IsInterceptable(headers[i]))
    && NoRepeats(headers)
    && WireBytes(headers) <= MAX_INTERCEPTED_BYTES
  }

  /** The lines as they go on the wire. */
  function Lines(headers: seq<Header>): string {
    if headers == [] then ""
    else
      var last := headers[|headers| - 1];
      Lines(headers[..|headers| - 1]) + (last.name + ": " + last.value + "\r\n")
  }

  /** What is admitted adds no line but its own, no name the protocol owns, no name twice, and at most 16 KiB. */
  lemma {:induction false} AdmittedLines(headers: seq<Header>)
    ensures |Lines(headers)| == WireBytes(headers)
    ensures Admissible(headers) ==> |Lines(headers)| <= 16384
  {
    if headers != [] { AdmittedLines(headers[..|headers| - 1]); }
  }

  lemma InterceptableIsHarmless(header: Header)
    requires IsInterceptable(header)
    ensures header.name != "" && header.value != ""
    ensures forall i :: 0 <= i < |header.value| ==> header.value[i] !in {'\r', '\n', '\0', 127 as char}
    ensures forall i :: 0 <= i < |header.name| ==> header.name[i] !in {'\r', '\n', ':', ' ', '\t', '\0'}
    ensures Lower(header.name) !in {
              "host", "range", "if-range", "if-match", "if-none-match", "if-modified-since", "if-unmodified-since",
              "accept-encoding", "content-encoding", "content-length", "transfer-encoding", "te", "trailer",
              "connection", "keep-alive", "proxy-connection", "upgrade", "expect", "user-agent"}
  {
    forall i | 0 <= i < |header.name| ensures header.name[i] !in {'\r', '\n', ':', ' ', '\t', '\0'} {
      assert IsTokenChar(header.name[i]);
    }
  }

  lemma {:induction false} WireBytesGrow(headers: seq<Header>, k: nat)
    requires k <= |headers|
    ensures WireBytes(headers[..k]) <= WireBytes(headers)
  {
    if k == |headers| {
      assert headers[..k] == headers;
    } else {
      WireBytesGrow(headers[..|headers| - 1], k);
      assert headers[..|headers| - 1][..k] == headers[..k];
    }
  }

  /** One pass over what the interceptor returned; nothing is admitted in part. */
  method Admit(headers: seq<Header>) returns (ok: bool)
    ensures ok <==> Admissible(headers)
  {
    hide IsInterceptable, Lower;
    var total: nat := 0;
    var seen: seq<string> := [];
    for i := 0 to |headers|
      invariant forall k :: 0 <= k < i ==> IsInterceptable(headers[k])
      invariant |seen| == i && forall k :: 0 <= k < i ==> seen[k] == Lower(headers[k].name)
      invariant NoRepeats(headers[..i])
      invariant total == WireBytes(headers[..i]) <= MAX_INTERCEPTED_BYTES
    {
      if !IsInterceptable(headers[i]) { return false; }
      var lower := Lower(headers[i].name);
      if lower in seen { return false; }
      seen := seen + [lower];
      assert headers[..i + 1][..i] == headers[..i];
      assert headers[..i + 1][i] == headers[i];
      total := total + |headers[i].name| + 2 + |headers[i].value| + 2;
      assert total == WireBytes(headers[..i + 1]);
      if total > MAX_INTERCEPTED_BYTES {
        WireBytesGrow(headers, i + 1);
        return false;
      }
    }
    assert headers[..|headers|] == headers;
    return true;
  }
}
