/**
 * The opencode HTTP client: server discovery from `pgrep`/`lsof` output and
 * `/path` probes, the prompt request, and the line loop that turns the
 * `/event` server-sent-event stream into events.
 *
 * Processes and HTTP are inputs: the pid list, each pid's `lsof` lines, the
 * result of probing an address, and the sequence of line steps.
 * JSON decoding is a partial function parameter.
 */
module OpenCodeApi {
  import opened Wrappers
  import opened Text

  // ------------------------------------------------------------------- types

  datatype ServerPath = ServerPath(home: string, state: string, config: string, worktree: string, directory: string)

  datatype Server = Server(address: string, path: ServerPath)

  datatype Time = Time(created: int, updated: int)

  datatype Session = Session(id: string, title: string, directory: string, time: Time)

  /** An SSE event envelope; only its `type` is decoded. */
  datatype Event = Event(eventType: string)

  datatype MessagePart = MessagePart(text: string, partType: string)

  /** The `prompt_async` body. */
  datatype Message = Message(parts: seq<MessagePart>, agent: Option<string>)

  /** An HTTP POST as `sendPromptAsync` builds it. */
  datatype PromptRequest = PromptRequest(url: string, contentType: string, body: Message)

  /** What `client.send` did: a response with a status code, or an exception. */
  datatype Transport = Responded(status: int) | TransportFailed

  // ------------------------------------------------------------------ prompt

  /** The request for prompting `sessionId` on `address`, with an optional agent. */
  function BuildPromptRequest(address: string, sessionId: string, prompt: string, agent: Option<string>): (r: PromptRequest)
    ensures |r.body.parts| == 1
    ensures r.body.parts[0].text == prompt && r.body.parts[0].partType == "text"
    ensures r.body.agent == agent
    ensures r.contentType == "application/json"
    ensures r.url == "http://" + address + "/session/" + sessionId + "/prompt_async"
    ensures '/' !in address && '/' !in sessionId ==> PromptUrlParts(r.url) == Some((address, sessionId))
  {
    PromptUrlRoundTrip(address, sessionId);
    PromptRequest(
      "http://" + address + "/session/" + sessionId + "/prompt_async",
      "application/json",
      Message([MessagePart(prompt, "text")], agent))
  }

  /**
   * Reads the address and the session id back from a `prompt_async` URL:
   * the text between `http://` and the next `/`, then, after `/session/`,
   * the text up to the next `/`, which must start `/prompt_async` at the end.
   */
  function PromptUrlParts(url: string): (r: Option<(string, string)>)
    ensures r.Some? ==> url == HttpScheme + r.value.0 + SessionInfix + r.value.1 + PromptSuffix
    ensures r.Some? ==> '/' !in r.value.0 && '/' !in r.value.1
  {
    if !(HttpScheme <= url) then None
    else
      var rest := url[|HttpScheme|..];
      var i := IndexOf(rest, "/", 0);
      if i < 0 || !(SessionInfix <= rest[i..]) then None
      else
        var t := rest[i + |SessionInfix|..];
        var j := IndexOf(t, "/", 0);
        if j < 0 || t[j..] != PromptSuffix then None
        else
          SlashFree(rest, i);
          SlashFree(t, j);
          UrlPieces(url, HttpScheme, rest, i, SessionInfix, t, j, PromptSuffix);
          Some((rest[..i], t[..j]))
  }

  /** The fixed pieces of a `prompt_async` URL. */
  const HttpScheme: string := "http://"
  const SessionInfix: string := "/session/"
  const PromptSuffix: string := "/prompt_async"

  /** Cutting a URL after a scheme, at a separator and before a suffix leaves pieces that rebuild it. */
  lemma UrlPieces(url: string, p: string, rest: string, i: nat, q: string, t: string, j: nat, u: string)
    requires p <= url && rest == url[|p|..]
    requires i <= |rest| && q <= rest[i..] && t == rest[i + |q|..]
    requires j <= |t| && t[j..] == u
    ensures url == p + rest[..i] + q + t[..j] + u
  {
    assert url == p + rest;
    assert rest == rest[..i] + rest[i..];
    assert rest[i..] == q + t;
    assert t == t[..j] + u;
  }

  /** The first `/` of `a + b`, when `a` has none and `b` starts with one, is right after `a`. */
  lemma FirstSlashAt(a: string, b: string)
    requires '/' !in a && |b| > 0 && b[0] == '/'
    ensures IndexOf(a + b, "/", 0) == |a|
  {
    assert b == ['/'] + b[1..];
    assert a + b == a + ['/'] + b[1..];
    IndexOfCharAfter(a, '/', b[1..]);
  }

  /** Before the first `/` there is none. */
  lemma SlashFree(s: string, i: nat)
    requires IndexOf(s, "/", 0) == i as int
    ensures i <= |s| && '/' !in s[..i]
  {
    forall k | 0 <= k < i ensures s[..i][k] != '/' {
      if s[k] == '/' {
        assert s[k..k + 1] == "/";
        OccursAtSlice(s, "/", k);
      }
    }
  }

  /** A URL built from an address and a session id without `/` reads back as them. */
  lemma PromptUrlRoundTrip(address: string, sessionId: string)
    ensures '/' !in address && '/' !in sessionId ==>
      PromptUrlParts("http://" + address + "/session/" + sessionId + "/prompt_async") == Some((address, sessionId))
  {
    if '/' in address || '/' in sessionId {
      return;
    }
    var url := HttpScheme + address + SessionInfix + sessionId + PromptSuffix;
    var t := sessionId + PromptSuffix;
    var rest := address + (SessionInfix + t);
    assert HttpScheme <= url && url[|HttpScheme|..] == rest by {
      assert url == HttpScheme + rest;
    }
    assert IndexOf(rest, "/", 0) == |address| by {
      assert (SessionInfix + t)[0] == '/';
      FirstSlashAt(address, SessionInfix + t);
    }
    assert rest[..|address|] == address && rest[|address|..] == SessionInfix + t;
    assert rest[|address| + |SessionInfix|..] == t;
    assert IndexOf(t, "/", 0) == |sessionId| by {
      assert PromptSuffix[0] == '/';
      FirstSlashAt(sessionId, PromptSuffix);
    }
    assert t[..|sessionId|] == sessionId && t[|sessionId|..] == PromptSuffix;
  }


  /**
   * The value `sendPromptAsync` returns: `Success(true)` for a 2xx status,
   * `Success(false)` for any other status, `Failure` when sending threw.
   */
  function SendOutcome(t: Transport): (r: Result<bool>)
    ensures r == Success(true) <==> t.Responded? && 200 <= t.status <= 299
    ensures r.Failure? <==> t.TransportFailed?
  {
    match t
    case Responded(status) => Success(200 <= status <= 299)
    case TransportFailed => Failure
  }

  // --------------------------------------------------------------- discovery

  /** The literal part of `TCP (\d+\.\d+\.\d+\.\d+:\d+)` before the group. */
  const TcpPrefix: string := "TCP "

  /**
   * End (exclusive) of a `\d+` followed by `sep` at `i`, or `None`. A greedy
   * digit run that is not followed by `sep` fails: no shorter run can be,
   * since a shorter run is followed by a digit.
   */
  function DigitsThen(s: string, i: nat, sep: char): (r: Option<nat>)
    ensures r.Some? ==> i < r.value <= |s|
  {
    var n := DigitRun(s, i);
    if n > 0 && i + n < |s| && s[i + n] == sep then Some(i + n + 1) else None
  }

  /** The separators between the five digit runs of the address group. */
  const AddressSeparators: string := "...:"

  /**
   * End of `\d+` followed by `seps[0]`, `\d+` followed by `seps[1]`, ...,
   * and a final `\d+`, starting at `i`; `None` when that does not match.
   */
  function GroupEnd(s: string, i: nat, seps: string): (r: Option<nat>)
    ensures r.Some? ==> i < r.value <= |s|
    decreases |seps|
  {
    if |seps| == 0 then
      var n := DigitRun(s, i);
      if n > 0 then Some(i + n) else None
    else
      match DigitsThen(s, i, seps[0])
      case None => None
      case Some(j) => GroupEnd(s, j, seps[1..])
  }

  /** End of the group `\d+\.\d+\.\d+\.\d+:\d+` starting at `i`, or `None`. */
  function AddressEnd(s: string, i: nat): (r: Option<nat>)
    ensures r.Some? ==> i < r.value <= |s|
  {
    GroupEnd(s, i, AddressSeparators)
  }

  /** The regex matches at `i`: `TCP ` followed by the address group. */
  predicate AddressAt(s: string, i: nat) {
    i + |TcpPrefix| <= |s| && s[i..i + |TcpPrefix|] == TcpPrefix && AddressEnd(s, i + |TcpPrefix|).Some?
  }

  /**
   * The leftmost match at or after `from`: `Regex.find` tries each start
   * position in turn and keeps the first one where the whole pattern matches.
   */
  function FindAddress(s: string, from: nat): (r: Option<nat>)
    ensures r.Some? ==> from <= r.value && AddressAt(s, r.value)
    ensures r.Some? ==> forall i :: from <= i < r.value ==> !AddressAt(s, i)
    ensures r.None? ==> forall i :: from <= i ==> !AddressAt(s, i)
    decreases |s| - from
  {
    if from + |TcpPrefix| > |s| then None
    else if AddressAt(s, from) then Some(from)
    else FindAddress(s, from + 1)
  }

  /** Group 1 of the first `TCP (\d+\.\d+\.\d+\.\d+:\d+)` match in an `lsof` line. */
  function ExtractAddress(line: string): (r: Option<string>)
    ensures r.Some? ==> exists i :: AddressAt(line, i)
    ensures r.None? ==> forall i :: !AddressAt(line, i)
    ensures r.Some? ==> |r.value| > 0
  {
    match FindAddress(line, 0)
    case None => None
    case Some(i) => Some(line[i + 4..AddressEnd(line, i + 4).value])
  }

  /** `filter { it.contains("TCP") }.mapNotNull { extract }` over `lsof` output. */
  function ParseAddresses(lines: seq<string>): (r: seq<string>)
    ensures |r| <= |lines|
    ensures forall j :: 0 <= j < |lines| && Contains(lines[j], "TCP") && ExtractAddress(lines[j]).Some? ==>
      ExtractAddress(lines[j]).value in r
  {
    if |lines| == 0 then [] else LineAddress(lines[0]) + ParseAddresses(lines[1..])
  }

  /** What one `lsof` line contributes: its address, if it mentions `TCP` and the regex matches. */
  function LineAddress(line: string): (r: seq<string>)
    ensures |r| <= 1
    ensures |r| == 1 ==> TcpLineFor(line, r[0])
    ensures Contains(line, "TCP") && ExtractAddress(line).Some? ==> r == [ExtractAddress(line).value]
  {
    if Contains(line, "TCP") && ExtractAddress(line).Some? then [ExtractAddress(line).value] else []
  }

  /** `line` mentions `TCP` and its regex group is `address`. */
  predicate TcpLineFor(line: string, address: string) {
    Contains(line, "TCP") && ExtractAddress(line) == Some(address)
  }

  /** Every address parsed comes from a line that mentions `TCP`, as its regex group. */
  lemma {:induction false} ParseAddressesSound(lines: seq<string>)
    ensures forall k :: 0 <= k < |ParseAddresses(lines)| ==>
      exists j :: 0 <= j < |lines| && TcpLineFor(lines[j], ParseAddresses(lines)[k])
  {
    if |lines| > 0 {
      ParseAddressesSound(lines[1..]);
      var r := ParseAddresses(lines);
      var tail := ParseAddresses(lines[1..]);
      var h := |LineAddress(lines[0])|;
      forall k | 0 <= k < |r| ensures exists j :: 0 <= j < |lines| && TcpLineFor(lines[j], r[k]) {
        if k < h {
          assert TcpLineFor(lines[0], r[k]);
        } else {
          assert r[k] == tail[k - h];
          var j :| 0 <= j < |lines[1..]| && TcpLineFor(lines[1..][j], tail[k - h]);
          assert lines[j + 1] == lines[1..][j];
        }
      }
    } else {
      assert ParseAddresses(lines) == [];
    }
  }

  /** A single line gives its address when it mentions `TCP` and the regex matches, and nothing otherwise. */
  lemma ParseAddressesOfLine(line: string)
    ensures ParseAddresses([line]) ==
      if Contains(line, "TCP") && ExtractAddress(line).Some? then [ExtractAddress(line).value] else []
  {
    assert [line][1..] == [];
  }

  /** Parsing is line by line: the addresses of joined outputs are the joined addresses. */
  lemma {:induction false} ParseAddressesAppend(a: seq<string>, b: seq<string>)
    ensures ParseAddresses(a + b) == ParseAddresses(a) + ParseAddresses(b)
  {
    if |a| > 0 {
      assert (a + b)[0] == a[0];
      assert (a + b)[1..] == a[1..] + b;
      ParseAddressesAppend(a[1..], b);
    } else {
      assert a + b == b;
    }
  }

  /** Keeps the addresses whose `/path` probe succeeds, as `Server`s, in order. */
  function ProbeServers(addresses: seq<string>, probe: string -> Result<ServerPath>): (r: seq<Server>)
    ensures |r| <= |addresses|
    ensures forall k :: 0 <= k < |r| ==> r[k].address in addresses && probe(r[k].address) == Success(r[k].path)
    ensures forall a :: a in addresses && probe(a).Success? ==> Server(a, probe(a).value) in r
  {
    if |addresses| == 0 then []
    else
      (match probe(addresses[0])
       case Success(path) => [Server(addresses[0], path)]
       case Failure => [])
      + ProbeServers(addresses[1..], probe)
  }

  /** A single address becomes a server exactly when its probe succeeds. */
  lemma ProbeServersOfAddress(address: string, probe: string -> Result<ServerPath>)
    ensures ProbeServers([address], probe) ==
      if probe(address).Success? then [Server(address, probe(address).value)] else []
  {
    assert [address][1..] == [];
  }

  /** Probing is address by address, so survivors keep their relative order. */
  lemma {:induction false} ProbeServersAppend(a: seq<string>, b: seq<string>, probe: string -> Result<ServerPath>)
    ensures ProbeServers(a + b, probe) == ProbeServers(a, probe) + ProbeServers(b, probe)
  {
    if |a| > 0 {
      assert (a + b)[0] == a[0];
      assert (a + b)[1..] == a[1..] + b;
      ProbeServersAppend(a[1..], b, probe);
    } else {
      assert a + b == b;
    }
  }

  /** Every `lsof` line of every pid, in pid order. */
  function LsofLines(pids: seq<string>, lsof: string -> seq<string>): (r: seq<string>)
    ensures forall p :: p in pids ==> forall l :: l in lsof(p) ==> l in r
    ensures forall l :: l in r ==> exists p :: p in pids && l in lsof(p)
  {
    if |pids| == 0 then [] else lsof(pids[0]) + LsofLines(pids[1..], lsof)
  }

  /**
   * `getServers` once `pgrep` has listed `pids`: no pids means no servers;
   * otherwise the addresses in the `lsof` output whose probe succeeds.
   */
  function GetServers(pids: seq<string>, lsof: string -> seq<string>, probe: string -> Result<ServerPath>): (r: seq<Server>)
    ensures |pids| == 0 ==> r == []
    ensures forall k :: 0 <= k < |r| ==>
      r[k].address in ParseAddresses(LsofLines(pids, lsof)) && probe(r[k].address) == Success(r[k].path)
    ensures |pids| > 0 ==> forall a :: a in ParseAddresses(LsofLines(pids, lsof)) && probe(a).Success? ==>
      Server(a, probe(a).value) in r
  {
    if |pids| == 0 then []
    else ProbeServers(ParseAddresses(LsofLines(pids, lsof)), probe)
  }

  /**
   * The `lsof` sample line, written as the concatenation of its pieces: the
   * listening address is `127.0.0.1:3000`.
   */
  lemma LsofSampleLine(line: string)
    requires line == ".opencode 8620 laptop   20u  IPv4" + " 0xf341b5c7aeeffce5      0t0  "
                     + "TCP " + "127.0.0.1:3000" + " (LISTEN)]"
    ensures Contains(line, "TCP")
    ensures ExtractAddress(line) == Some("127.0.0.1:3000")
  {
    var head := ".opencode 8620 laptop   20u  IPv4" + " 0xf341b5c7aeeffce5      0t0  ";
    SampleHeadHasNoT(".opencode 8620 laptop   20u  IPv4", " 0xf341b5c7aeeffce5      0t0  ");
    SampleAddressGroup("127.0.0.1:3000" + " (LISTEN)]");
    ExtractAfterFirstTcp(head, "127.0.0.1:3000", " (LISTEN)]");
  }

  lemma SampleHeadHasNoT(a: string, b: string)
    requires a == ".opencode 8620 laptop   20u  IPv4"
    requires b == " 0xf341b5c7aeeffce5      0t0  "
    ensures 'T' !in a + b
  {
  }

  lemma SampleAddressGroup(t: string)
    requires t == "127.0.0.1:3000" + " (LISTEN)]"
    ensures GroupEnd(t, 0, AddressSeparators) == Some(14)
  {
    assert |t| == 24;
    assert t[0] == '1' && t[1] == '2' && t[2] == '7' && t[3] == '.';
    assert t[4] == '0' && t[5] == '.' && t[6] == '0' && t[7] == '.' && t[8] == '1' && t[9] == ':';
    assert t[10] == '3' && t[11] == '0' && t[12] == '0' && t[13] == '0' && t[14] == ' ';
    LoopbackGroup(t);
  }

  /** `127.0.0.1:3000` followed by a non-digit is a complete address group. */
  lemma LoopbackGroup(t: string)
    requires |t| > 14
    requires t[0] == '1' && t[1] == '2' && t[2] == '7' && t[3] == '.'
    requires t[4] == '0' && t[5] == '.' && t[6] == '0' && t[7] == '.' && t[8] == '1' && t[9] == ':'
    requires t[10] == '3' && t[11] == '0' && t[12] == '0' && t[13] == '0' && !IsDigit(t[14])
    ensures GroupEnd(t, 0, AddressSeparators) == Some(14)
  {
    var s0 := AddressSeparators;
    assert |s0| == 4 && s0[0] == '.' && s0[1] == '.' && s0[2] == '.' && s0[3] == ':';
    var s1 := s0[1..];
    var s2 := s1[1..];
    var s3 := s2[1..];
    assert s1[0] == '.' && s2[0] == '.' && s3[0] == ':' && |s3[1..]| == 0;
    assert DigitRun(t, 3) == 0 && DigitRun(t, 2) == 1 && DigitRun(t, 1) == 2 && DigitRun(t, 0) == 3;
    assert DigitRun(t, 5) == 0 && DigitRun(t, 4) == 1;
    assert DigitRun(t, 7) == 0 && DigitRun(t, 6) == 1;
    assert DigitRun(t, 9) == 0 && DigitRun(t, 8) == 1;
    assert DigitRun(t, 14) == 0 && DigitRun(t, 13) == 1 && DigitRun(t, 12) == 2;
    assert DigitRun(t, 11) == 3 && DigitRun(t, 10) == 4;
    assert GroupEnd(t, 10, s3[1..]) == Some(14);
    assert GroupEnd(t, 8, s3) == Some(14);
    assert GroupEnd(t, 6, s2) == Some(14);
    assert GroupEnd(t, 4, s1) == Some(14);
  }

  /** `DigitRun` only looks at the text from `i` on. */
  lemma {:induction false} DigitRunShift(pre: string, t: string, i: nat)
    ensures DigitRun(pre + t, |pre| + i) == DigitRun(t, i)
    decreases |t| - i
  {
    if i < |t| {
      assert (pre + t)[|pre| + i] == t[i];
      DigitRunShift(pre, t, i + 1);
    }
  }

  /** `GroupEnd` only looks at the text from `i` on. */
  lemma {:induction false} GroupEndShift(pre: string, t: string, i: nat, seps: string)
    ensures GroupEnd(pre + t, |pre| + i, seps).Some? <==> GroupEnd(t, i, seps).Some?
    ensures GroupEnd(t, i, seps).Some? ==> GroupEnd(pre + t, |pre| + i, seps).value == |pre| + GroupEnd(t, i, seps).value
    decreases |seps|
  {
    DigitRunShift(pre, t, i);
    var n := DigitRun(t, i);
    if i + n < |t| {
      assert (pre + t)[|pre| + i + n] == t[i + n];
    }
    if |seps| > 0 {
      match DigitsThen(t, i, seps[0])
      case None =>
      case Some(j) =>
        GroupEndShift(pre, t, j, seps[1..]);
    }
  }

  /**
   * A line whose first `T` starts `TCP ` and an address group yields that
   * group: the leftmost match is taken.
   */
  lemma ExtractAfterFirstTcp(head: string, address: string, tail: string)
    requires 'T' !in head
    requires GroupEnd(address + tail, 0, AddressSeparators) == Some(|address|)
    ensures ExtractAddress(head + TcpPrefix + address + tail) == Some(address)
    ensures Contains(head + TcpPrefix + address + tail, "TCP")
  {
    var s := head + TcpPrefix + address + tail;
    var p := |head|;
    LinePieces(head, address, tail);
    assert |TcpPrefix| == 4;
    assert AddressEnd(s, p + 4) == Some(p + 4 + |address|) by {
      GroupEndShift(head + TcpPrefix, address + tail, 0, AddressSeparators);
    }
    assert AddressAt(s, p);
    FindAddressFirst(s, p);
    assert ExtractAddress(s) == Some(s[p + 4..p + 4 + |address|]);
    TcpPrefixContains(s, p);
  }

  /** Where the pieces of `head + TcpPrefix + address + tail` sit. */
  lemma LinePieces(head: string, address: string, tail: string)
    requires 'T' !in head
    ensures var s := head + TcpPrefix + address + tail;
      && s == (head + TcpPrefix) + (address + tail)
      && s[|head|..|head| + 4] == TcpPrefix
      && s[|head| + 4..|head| + 4 + |address|] == address
      && forall j :: 0 <= j < |head| ==> s[j] != 'T'
  {
    var s := head + TcpPrefix + address + tail;
    forall j | 0 <= j < |head| ensures s[j] != 'T' {
      assert s[j] == head[j];
    }
  }

  /** `TCP ` at `p` makes the line pass the `contains("TCP")` filter. */
  lemma TcpPrefixContains(s: string, p: nat)
    requires p + 4 <= |s| && s[p..p + 4] == TcpPrefix
    ensures Contains(s, "TCP")
  {
    assert OccursAt(s, "TCP", p) by {
      OccursAtSlice(s, "TCP", p);
      assert s[p..p + 3] == s[p..p + 4][..3];
    }
    OccursAtContains(s, "TCP", p);
  }

  /** The first `TCP ` in a line that matches the pattern is where the match is. */
  lemma FindAddressFirst(s: string, p: nat)
    requires AddressAt(s, p)
    requires forall j :: 0 <= j < p ==> s[j] != 'T'
    ensures ExtractAddress(s) == Some(s[p + 4..AddressEnd(s, p + 4).value])
  {
    var r := FindAddress(s, 0);
    assert r.Some?;
    var q := r.value;
    assert q <= p;
    assert s[q] == 'T' by {
      assert s[q..q + 4][0] == 'T';
    }
    assert q == p;
    assert ExtractAddress(s) == Some(s[q + 4..AddressEnd(s, q + 4).value]);
  }

  // ------------------------------------------------------------- event stream

  /** One `readLine()` on the event stream: a line, end of input (`null`), or an exception. */
  datatype Read = Line(text: string) | EndOfInput | ReadFailed

  const DataPrefix: string := "data: "

  /** The steps the loop consumes before it stops, the stopping read excluded. */
  function LiveReads(steps: seq<Read>, responseCode: int): (r: seq<string>)
    ensures |r| <= |steps|
    ensures responseCode == -1 ==> r == []
    ensures forall k :: 0 <= k < |r| ==> steps[k] == Line(r[k])
  {
    if |steps| == 0 || !steps[0].Line? || responseCode == -1 then []
    else [steps[0].text] + LiveReads(steps[1..], responseCode)
  }

  /** The payloads of the `data: ` lines, prefix removed, in order. */
  function Payloads(lines: seq<string>): (r: seq<string>)
    ensures |r| <= |lines|
  {
    if |lines| == 0 then []
    else (if DataPrefix <= lines[0] then [lines[0][|DataPrefix|..]] else []) + Payloads(lines[1..])
  }

  /** The payloads that decode, in order; the others are dropped. */
  function DecodeAll(payloads: seq<string>, decode: string -> Option<Event>): (r: seq<Event>)
    ensures |r| <= |payloads|
  {
    if |payloads| == 0 then []
    else
      match decode(payloads[0])
      case Some(e) => [e] + DecodeAll(payloads[1..], decode)
      case None => DecodeAll(payloads[1..], decode)
  }

  /**
   * The payloads are exactly the `data: ` lines with the prefix removed: every
   * such line contributes, and every payload comes from one.
   */
  lemma {:induction false} PayloadsMembers(lines: seq<string>)
    ensures forall l :: l in lines && DataPrefix <= l ==> l[|DataPrefix|..] in Payloads(lines)
    ensures forall q :: q in Payloads(lines) ==> DataPrefix + q in lines
  {
    if |lines| > 0 {
      PayloadsMembers(lines[1..]);
      assert lines == [lines[0]] + lines[1..];
      assert DataPrefix <= lines[0] ==> DataPrefix + lines[0][|DataPrefix|..] == lines[0];
    }
  }

  /**
   * Every payload that decodes contributes its event, and every event comes
   * from a payload that decodes to it.
   */
  lemma {:induction false} DecodeAllMembers(payloads: seq<string>, decode: string -> Option<Event>)
    ensures forall p :: p in payloads && decode(p).Some? ==> decode(p).value in DecodeAll(payloads, decode)
    ensures forall e :: e in DecodeAll(payloads, decode) ==> exists p :: p in payloads && decode(p) == Some(e)
  {
    if |payloads| > 0 {
      DecodeAllMembers(payloads[1..], decode);
      assert payloads == [payloads[0]] + payloads[1..];
      forall e | e in DecodeAll(payloads, decode)
        ensures exists p :: p in payloads && decode(p) == Some(e)
      {
        if decode(payloads[0]) != Some(e) {
          var p :| p in payloads[1..] && decode(p) == Some(e);
          assert p in payloads;
        }
      }
    }
  }

  lemma {:induction false} PayloadsSnoc(lines: seq<string>, l: string)
    ensures Payloads(lines + [l]) == Payloads(lines) + (if DataPrefix <= l then [l[|DataPrefix|..]] else [])
  {
    if |lines| == 0 {
      assert lines + [l] == [l];
    } else {
      var all := lines + [l];
      assert all[0] == lines[0] && all[1..] == lines[1..] + [l];
      PayloadsSnoc(lines[1..], l);
      var head := if DataPrefix <= lines[0] then [lines[0][|DataPrefix|..]] else [];
      var last := if DataPrefix <= l then [l[|DataPrefix|..]] else [];
      assert Payloads(all) == head + (Payloads(lines[1..]) + last);
      assert head + (Payloads(lines[1..]) + last) == (head + Payloads(lines[1..])) + last;
    }
  }

  lemma {:induction false} DecodeAllAppend(a: seq<string>, b: seq<string>, decode: string -> Option<Event>)
    ensures DecodeAll(a + b, decode) == DecodeAll(a, decode) + DecodeAll(b, decode)
    decreases |a|
  {
    if |a| == 0 {
      assert a + b == b;
    } else {
      assert (a + b)[0] == a[0];
      assert (a + b)[1..] == a[1..] + b;
      DecodeAllAppend(a[1..], b, decode);
      match decode(a[0])
      case Some(e) =>
        assert [e] + (DecodeAll(a[1..], decode) + DecodeAll(b, decode))
            == ([e] + DecodeAll(a[1..], decode)) + DecodeAll(b, decode);
      case None =>
    }
  }

  lemma {:induction false} LiveReadsPrefix(steps: seq<Read>, responseCode: int, i: nat)
    requires i < |steps| && responseCode != -1
    requires forall k :: 0 <= k <= i ==> steps[k].Line?
    ensures LiveReads(steps[..i + 1], responseCode) == LiveReads(steps[..i], responseCode) + [steps[i].text]
  {
    if i > 0 {
      assert steps[..i + 1][1..] == steps[1..][..i];
      assert steps[..i][1..] == steps[1..][..i - 1];
      LiveReadsPrefix(steps[1..], responseCode, i - 1);
    }
  }

  /**
   * The `getEventsFlow` loop: read a line; stop at end of input, on a read
   * exception, or when the connection reports response code -1; skip empty
   * lines and lines without the `data: ` prefix; decode the payload and emit
   * it, skipping payloads that fail to decode. Running out of `steps` is end
   * of input.
   */
  method CollectEvents(steps: seq<Read>, responseCode: int, decode: string -> Option<Event>) returns (events: seq<Event>)
    ensures events == DecodeAll(Payloads(LiveReads(steps, responseCode)), decode)
  {
    events := [];
    var i := 0;
    while i < |steps| && steps[i].Line? && responseCode != -1
      invariant 0 <= i <= |steps|
      invariant forall k :: 0 <= k < i ==> steps[k].Line?
      invariant events == DecodeAll(Payloads(LiveReads(steps[..i], responseCode)), decode)
    {
      var line := steps[i].text;
      CollectStep(steps, responseCode, i, decode);
      // An empty line is skipped, and so is one without the prefix; a payload that does not decode is dropped.
      if |line| > 0 && DataPrefix <= line {
        match decode(line[|DataPrefix|..])
        case Some(event) => events := events + [event];
        case None =>
      }
      i := i + 1;
    }
    // End of input, a failed read or response code -1 stops the loop.
    if i < |steps| {
      LiveReadsStop(steps, responseCode, i);
    } else {
      assert steps[..i] == steps;
    }
  }

  /** The event one line contributes: its decoded payload, when it has the prefix and decodes. */
  function LineEvents(line: string, decode: string -> Option<Event>): seq<Event> {
    if DataPrefix <= line then (match decode(line[|DataPrefix|..]) case Some(e) => [e] case None => []) else []
  }

  /** One more line read extends the events by what its payload decodes to, if anything. */
  lemma CollectStep(steps: seq<Read>, responseCode: int, i: nat, decode: string -> Option<Event>)
    requires i < |steps| && responseCode != -1
    requires forall k :: 0 <= k <= i ==> steps[k].Line?
    ensures DecodeAll(Payloads(LiveReads(steps[..i + 1], responseCode)), decode)
      == DecodeAll(Payloads(LiveReads(steps[..i], responseCode)), decode) + LineEvents(steps[i].text, decode)
  {
    var line := steps[i].text;
    LiveReadsPrefix(steps, responseCode, i);
    PayloadsSnoc(LiveReads(steps[..i], responseCode), line);
    var payload := if DataPrefix <= line then [line[|DataPrefix|..]] else [];
    DecodeAllAppend(Payloads(LiveReads(steps[..i], responseCode)), payload, decode);
    if DataPrefix <= line {
      assert DecodeAll(payload[1..], decode) == [];
    }
  }

  /** The steps up to the first one that stops the loop are all it consumes. */
  lemma {:induction false} LiveReadsStop(steps: seq<Read>, responseCode: int, i: nat)
    requires i < |steps|
    requires forall k :: 0 <= k < i ==> steps[k].Line?
    requires !steps[i].Line? || responseCode == -1
    ensures LiveReads(steps, responseCode) == LiveReads(steps[..i], responseCode)
  {
    if i > 0 && responseCode != -1 {
      assert steps[..i][1..] == steps[1..][..i - 1];
      LiveReadsStop(steps[1..], responseCode, i - 1);
    }
  }
}
