/**
  The kernel's end of the serial protocol to the language-model bridge: it sends one framed prompt
  and reads bytes until a framed response is complete or its iteration budget is spent.
 */
module LlmFraming {
  import opened Wrappers

  const STX: Byte := 0x02
  const ETX: Byte := 0x03

  const LLM_TAG: seq<Byte> := [0x4C, 0x4C, 0x4D, 0x3A]  // "LLM:"
  const RSP_TAG: seq<Byte> := [0x52, 0x53, 0x50, 0x3A]  // "RSP:"

  function Frame(tag: seq<Byte>, body: seq<Byte>): seq<Byte> {
    [STX] + tag + body + [ETX]
  }

  /** The bytes on the wire, as both programs document them. */
  lemma WireFormat(body: seq<Byte>)
    ensures Frame(LLM_TAG, body) == [2, 'L' as nat, 'L' as nat, 'M' as nat, ':' as nat] + body + [3]
    ensures Frame(RSP_TAG, body) == [2, 'R' as nat, 'S' as nat, 'P' as nat, ':' as nat] + body + [3]
  {
  }
}

module LlmKernel {
  import opened Wrappers
  import opened LlmFraming

  const MAX_RESPONSE: nat := 1024

  const INVALID_TEXT: seq<Byte> :=  // "[invalid utf8]"
    [0x5B, 0x69, 0x6E, 0x76, 0x61, 0x6C, 0x69, 0x64, 0x20, 0x75, 0x74, 0x66, 0x38, 0x5D]

  datatype WaitState = WaitSTX | WaitR | WaitS | WaitP | WaitColon | ReadBody

  datatype Parser = Waiting(state: WaitState, body: seq<Byte>) | Complete(text: seq<Byte>)

  const START: Parser := Waiting(WaitSTX, [])

  function Cut(s: seq<Byte>): seq<Byte> {
    if |s| <= MAX_RESPONSE then s else s[..MAX_RESPONSE]
  }

  lemma InvalidTextSaysSo()
    ensures |INVALID_TEXT| == 14 && forall i | 0 <= i < 14 :: INVALID_TEXT[i] == "[invalid utf8]"[i] as int
  {
  }

  lemma CutIsBeginning(s: seq<Byte>)
    ensures Cut(s) <= s && |Cut(s)| == Min(|s|, 1024)
  {
  }

  function Expect(p: Parser, b: Byte, wanted: Byte, next: WaitState): Parser
    requires p.Waiting?
  {
    p.(state := if b == wanted then next else WaitSTX)
  }

  function Feed(p: Parser, b: Byte): Parser {
    match p
    case Complete(_) => p
    case Waiting(state, body) =>
      match state
      case WaitSTX => Expect(p, b, STX, WaitR)
      case WaitR => Expect(p, b, RSP_TAG[0], WaitS)
      case WaitS => Expect(p, b, RSP_TAG[1], WaitP)
      case WaitP => Expect(p, b, RSP_TAG[2], WaitColon)
      case WaitColon => Expect(p, b, RSP_TAG[3], ReadBody)
      case ReadBody => if b == ETX then Complete(body) else p.(body := if |body| < MAX_RESPONSE then body + [b] else body)
  }

  function FeedAll(p: Parser, bytes: seq<Byte>): Parser {
    if bytes == [] then p else Feed(FeedAll(p, bytes[..|bytes| - 1]), bytes[|bytes| - 1])
  }

  lemma {:induction false} FeedConcat(p: Parser, a: seq<Byte>, b: seq<Byte>)
    ensures FeedAll(p, a + b) == FeedAll(FeedAll(p, a), b)
  {
    if b == [] {
      assert a + b == a;
    } else {
      FeedConcat(p, a, b[..|b| - 1]);
      assert (a + b)[..|a + b| - 1] == a + b[..|b| - 1];
    }
  }

  lemma FeedOne(p: Parser, bytes: seq<Byte>, b: Byte)
    ensures FeedAll(p, bytes + [b]) == Feed(FeedAll(p, bytes), b)
  {
    assert (bytes + [b])[..|bytes|] == bytes;
  }

  lemma {:induction false} CompleteStays(text: seq<Byte>, bytes: seq<Byte>)
    ensures FeedAll(Complete(text), bytes) == Complete(text)
  {
    if bytes != [] {
      CompleteStays(text, bytes[..|bytes| - 1]);
    }
  }

  /** Text without STX leaves a waiting parser waiting. */
  lemma {:induction false} TextIsIgnored(noise: seq<Byte>)
    requires STX !in noise
    ensures FeedAll(START, noise) == START
  {
    if noise != [] {
      TextIsIgnored(noise[..|noise| - 1]);
      assert noise[|noise| - 1] in noise;
    }
  }

  lemma {:induction false} BodyIsCollected(body: seq<Byte>, bytes: seq<Byte>)
    requires ETX !in bytes
    ensures FeedAll(Waiting(ReadBody, Cut(body)), bytes) == Waiting(ReadBody, Cut(body + bytes))
  {
    if bytes == [] {
      assert body + bytes == body;
    } else {
      var init, b := bytes[..|bytes| - 1], bytes[|bytes| - 1];
      BodyIsCollected(body, init);
      assert b in bytes;
      assert body + bytes == (body + init) + [b];
    }
  }

  lemma FeedNext(p: Parser, h: seq<Byte>, k: nat)
    requires k < |h|
    ensures FeedAll(p, h[..k + 1]) == Feed(FeedAll(p, h[..k]), h[k])
  {
    assert h[..k + 1][..k] == h[..k];
  }

  lemma Header(p: Parser)
    ensures FeedAll(p, [STX] + RSP_TAG) ==
            Feed(Feed(Feed(Feed(Feed(p, STX), RSP_TAG[0]), RSP_TAG[1]), RSP_TAG[2]), RSP_TAG[3])
  {
    var h := [STX] + RSP_TAG;
    assert FeedAll(p, h[..0]) == p;
    FeedNext(p, h, 0);
    FeedNext(p, h, 1);
    FeedNext(p, h, 2);
    FeedNext(p, h, 3);
    FeedNext(p, h, 4);
    assert h[..5] == h;
  }

  lemma {:induction false} BodyOnlyWhileReading(bytes: seq<Byte>)
    ensures
      var p := FeedAll(START, bytes);
      p.Waiting? ==> (p.state != ReadBody ==> p.body == []) && |p.body| <= MAX_RESPONSE
  {
    if bytes != [] {
      BodyOnlyWhileReading(bytes[..|bytes| - 1]);
    }
  }

  // ----- What becomes of a response frame -----

  /** The bytes before the first ETX, or all of them. */
  function UpToEtx(s: seq<Byte>): seq<Byte> {
    if s == [] || s[0] == ETX then [] else [s[0]] + UpToEtx(s[1..])
  }

  lemma RestHas(s: seq<Byte>, b: Byte)
    requires s != []
    ensures b in s <==> s[0] == b || b in s[1..]
  {
  }

  lemma {:induction false} SplitAtEtx(s: seq<Byte>) returns (rest: seq<Byte>)
    ensures ETX !in UpToEtx(s) && s + [ETX] == UpToEtx(s) + [ETX] + rest
    ensures UpToEtx(s) <= s && (ETX !in s ==> UpToEtx(s) == s)
  {
    if s == [] || s[0] == ETX {
      rest := if s == [] then [] else s[1..] + [ETX];
    } else {
      rest := SplitAtEtx(s[1..]);
      RestHas(s, ETX);
      assert s + [ETX] == [s[0]] + (s[1..] + [ETX]);
    }
  }

  lemma FirstAndRest(a: seq<Byte>, b: seq<Byte>)
    requires a != []
    ensures [a[0]] + (a[1..] + b) == a + b
  {
  }

  lemma {:induction false} EtxComesLater(a: seq<Byte>, b: seq<Byte>)
    requires ETX !in a
    ensures UpToEtx(a + b) == a + UpToEtx(b)
  {
    if a == [] {
      assert a + b == b;
    } else {
      RestHas(a, ETX);
      EtxComesLater(a[1..], b);
      assert (a + b)[1..] == a[1..] + b;
      FirstAndRest(a, UpToEtx(b));
    }
  }

  /** A parser that is reading a body stops at the first ETX. */
  lemma BodyEndsAtEtx(body: seq<Byte>, bytes: seq<Byte>)
    ensures FeedAll(Waiting(ReadBody, Cut(body)), bytes + [ETX]) == Complete(Cut(body + UpToEtx(bytes)))
  {
    var start := Waiting(ReadBody, Cut(body));
    var rest := SplitAtEtx(bytes);
    FeedConcat(start, UpToEtx(bytes) + [ETX], rest);
    FeedOne(start, UpToEtx(bytes), ETX);
    BodyIsCollected(body, UpToEtx(bytes));
    CompleteStays(Cut(body + UpToEtx(bytes)), rest);
  }

  lemma FrameIsHeaderAndBody(p: Parser, response: seq<Byte>)
    ensures FeedAll(p, Frame(RSP_TAG, response)) == FeedAll(FeedAll(p, [STX] + RSP_TAG), response + [ETX])
  {
    FeedConcat(p, [STX] + RSP_TAG, response + [ETX]);
    assert Frame(RSP_TAG, response) == [STX] + RSP_TAG + (response + [ETX]);
  }

  lemma FrameWhileIdle(response: seq<Byte>)
    ensures FeedAll(START, Frame(RSP_TAG, response)) == Complete(Cut(UpToEtx(response)))
  {
    FrameIsHeaderAndBody(START, response);
    Header(START);
    BodyEndsAtEtx([], response);
    assert [] + UpToEtx(response) == UpToEtx(response);
  }

  lemma FrameInsideHeader(p: Parser, response: seq<Byte>)
    requires p.Waiting? && p.body == [] && p.state != WaitSTX && p.state != ReadBody
    ensures FeedAll(p, Frame(RSP_TAG, response)) == FeedAll(START, response + [ETX])
  {
    FrameIsHeaderAndBody(p, response);
    Header(p);
  }

  lemma FrameInsideBody(body: seq<Byte>, response: seq<Byte>)
    ensures FeedAll(Waiting(ReadBody, Cut(body)), Frame(RSP_TAG, response)) ==
            Complete(Cut(body + ([STX] + RSP_TAG + UpToEtx(response))))
  {
    BodyEndsAtEtx(body, [STX] + RSP_TAG + response);
    EtxComesLater([STX] + RSP_TAG, response);
  }

  /**
    What becomes of a response frame, by the state earlier noise left the parser in.  A parser that was
    waiting for STX receives the response up to its first ETX.  Inside a header the frame's STX only
    resets the parser, which then looks for a frame among the bytes of the response itself; inside a
    body the frame is swallowed as more body.
   */
  lemma FrameOutcome(noise: seq<Byte>, response: seq<Byte>)
    ensures FeedAll(START, noise + Frame(RSP_TAG, response)) ==
      match FeedAll(START, noise)
      case Complete(text) => Complete(text)
      case Waiting(state, body) =>
        if state == WaitSTX then Complete(Cut(UpToEtx(response)))
        else if state == ReadBody then Complete(Cut(body + ([STX] + RSP_TAG + UpToEtx(response))))
        else FeedAll(START, response + [ETX])
  {
    BodyOnlyWhileReading(noise);
    FeedConcat(START, noise, Frame(RSP_TAG, response));
    match FeedAll(START, noise) {
      case Complete(text) => CompleteStays(text, Frame(RSP_TAG, response));
      case Waiting(state, body) =>
        if state == WaitSTX {
          FrameWhileIdle(response);
        } else if state == ReadBody {
          FrameInsideBody(body, response);
        } else {
          FrameInsideHeader(Waiting(state, body), response);
        }
    }
  }

  /**
    After noise that leaves the parser waiting, a response is received up to its first ETX and cut to
    1024 bytes; so the whole cut response arrives iff no ETX is among its first 1024 bytes.
   */
  lemma ResponseIsReceived(noise: seq<Byte>, response: seq<Byte>, rest: seq<Byte>)
    requires FeedAll(START, noise) == START
    ensures
      var r := FeedAll(START, noise + Frame(RSP_TAG, response) + rest);
      r == Complete(Cut(UpToEtx(response))) && (r == Complete(Cut(response)) <==> ETX !in Cut(response))
  {
    FeedConcat(START, noise + Frame(RSP_TAG, response), rest);
    FrameOutcome(noise, response);
    CompleteStays(Cut(UpToEtx(response)), rest);
    CutUpToEtx(response);
  }

  lemma CutUpToEtx(s: seq<Byte>)
    ensures Cut(UpToEtx(s)) == Cut(s) <==> ETX !in Cut(s)
  {
    var rest := SplitAtEtx(s);
    var n := |UpToEtx(s)|;
    if n < MAX_RESPONSE && n < |s| {
      assert (s + [ETX])[n] == s[n] == Cut(s)[n] == ETX;
    } else {
      EtxIsAfter(s, n);
    }
  }

  /** Nothing before position `n` is an ETX when the first `n` bytes hold none. */
  lemma EtxIsAfter(s: seq<Byte>, n: nat)
    requires n <= |s| && ETX !in s[..n] && (n == |s| || n >= MAX_RESPONSE)
    ensures ETX !in Cut(s)
  {
    forall i | 0 <= i < |Cut(s)| ensures Cut(s)[i] != ETX {
      assert s[..n][i] == s[i];
    }
  }

  /** A stray STX just before a frame loses the whole frame, when the response holds no STX itself. */
  lemma StrayStxLosesFrame(response: seq<Byte>)
    requires STX !in response
    ensures FeedAll(START, [STX] + Frame(RSP_TAG, response)) == START
  {
    assert [STX][..0] == [];
    FrameOutcome([STX], response);
    TextIsIgnored(response + [ETX]);
  }

  /** After a stray STX a reply that looks like the start of a frame is taken for one, at its second STX. */
  lemma StrayStxMisleads(text: seq<Byte>)
    ensures FeedAll(START, [STX] + Frame(RSP_TAG, [STX] + RSP_TAG + text)) == Complete(Cut(UpToEtx(text)))
  {
    assert [STX][..0] == [];
    FrameOutcome([STX], [STX] + RSP_TAG + text);
    FrameWhileIdle(text);
  }

  // ----- Nothing but framed text is ever returned -----

  ghost function HeaderSoFar(state: WaitState): seq<Byte> {
    match state
    case WaitSTX => []
    case WaitR => [STX]
    case WaitS => [STX] + RSP_TAG[..1]
    case WaitP => [STX] + RSP_TAG[..2]
    case WaitColon => [STX] + RSP_TAG[..3]
    case ReadBody => [STX] + RSP_TAG
  }

  function Following(state: WaitState): WaitState {
    match state
    case WaitSTX => WaitR
    case WaitR => WaitS
    case WaitS => WaitP
    case WaitP => WaitColon
    case WaitColon => ReadBody
    case ReadBody => ReadBody
  }

  lemma HeaderStep(p: Parser, b: Byte)
    requires p.Waiting? && p.state != ReadBody
    ensures
      var q := Feed(p, b);
      q.Waiting? && q.body == p.body &&
      (q.state == WaitSTX ||
       (q.state == Following(p.state) && HeaderSoFar(q.state) == HeaderSoFar(p.state) + [b]))
  {
  }

  lemma CutGrows(body: seq<Byte>, b: Byte)
    ensures Cut(body + [b]) == if |Cut(body)| < MAX_RESPONSE then Cut(body) + [b] else Cut(body)
  {
  }

  /** A parser that is part-way through a frame has just seen that part of a frame. */
  lemma {:induction false} WaitingInsideFrame(bytes: seq<Byte>) returns (noise: seq<Byte>, body: seq<Byte>)
    requires FeedAll(START, bytes).Waiting?
    ensures
      var p := FeedAll(START, bytes);
      bytes == noise + HeaderSoFar(p.state) + body && p.body == Cut(body) && ETX !in body &&
      (p.state != ReadBody ==> body == []) && FeedAll(START, noise) == START
  {
    if bytes == [] {
      noise, body := [], [];
    } else {
      var init, b := bytes[..|bytes| - 1], bytes[|bytes| - 1];
      var q, p := FeedAll(START, init), FeedAll(START, bytes);
      noise, body := WaitingInsideFrame(init);
      assert bytes == init + [b];
      if q.state == ReadBody {
        CutGrows(body, b);
        assert bytes == noise + HeaderSoFar(ReadBody) + (body + [b]);
        body := body + [b];
      } else {
        HeaderStep(q, b);
        if p.state == WaitSTX {
          noise := bytes;
        } else {
          assert bytes == noise + (HeaderSoFar(q.state) + [b]);
        }
      }
    }
  }

  /** The bytes hold this frame, and the bytes before it leave the parser waiting for it. */
  ghost predicate FrameAwaited(bytes: seq<Byte>, noise: seq<Byte>, response: seq<Byte>, rest: seq<Byte>) {
    bytes == noise + Frame(RSP_TAG, response) + rest && FeedAll(START, noise) == START
  }

  /** A completed response is the cut body of a frame among the bytes that arrived, the one the parser was waiting for. */
  lemma {:induction false} OnlyFramedTextIsReturned(bytes: seq<Byte>, text: seq<Byte>)
    returns (noise: seq<Byte>, body: seq<Byte>, rest: seq<Byte>)
    requires FeedAll(START, bytes) == Complete(text)
    ensures FrameAwaited(bytes, noise, body, rest) && ETX !in body && text == Cut(body)
  {
    var init, b := bytes[..|bytes| - 1], bytes[|bytes| - 1];
    var q := FeedAll(START, init);
    assert bytes == init + [b];
    if q.Complete? {
      noise, body, rest := OnlyFramedTextIsReturned(init, text);
      assert bytes == noise + Frame(RSP_TAG, body) + (rest + [b]);
      rest := rest + [b];
    } else {
      noise, body := WaitingInsideFrame(init);
      rest := [];
      if q.state != ReadBody { HeaderStep(q, b); }
      assert bytes == noise + Frame(RSP_TAG, body) + rest;
    }
  }

  // ----- The query loop -----

  datatype QueryError = Timeout

  /** The bytes the first `n` polls of the serial line delivered. */
  ghost function Arrived(poll: nat -> Option<Byte>, n: nat): seq<Byte> {
    if n == 0 then [] else
      Arrived(poll, n - 1) + match poll(n) { case Some(b) => [b] case None => [] }
  }

  lemma {:induction false} ArrivedGrows(poll: nat -> Option<Byte>, k: nat, n: nat) returns (rest: seq<Byte>)
    requires k <= n
    ensures Arrived(poll, n) == Arrived(poll, k) + rest
  {
    if k == n {
      rest := [];
    } else {
      rest := ArrivedGrows(poll, k, n - 1);
      rest := rest + match poll(n) { case Some(b) => [b] case None => [] };
    }
  }

  /** The parser's verdict; the text check is a parameter. */
  function Verdict(p: Parser, isText: seq<Byte> -> bool): Result<seq<Byte>, QueryError> {
    match p
    case Complete(text) => Ok(if isText(text) then text else INVALID_TEXT)
    case Waiting(_, _) => Err(Timeout)
  }

  /**
    What a query returns.  If some frame among the bytes that arrived finds the parser waiting for it, the
    answer is its response up to the first ETX, cut to 1024 bytes, or a fixed text when that is not valid
    UTF-8; it times out iff there is no such frame.
   */
  lemma QueryReturnsFrame(bytes: seq<Byte>, isText: seq<Byte> -> bool)
    ensures forall noise, response, rest | FrameAwaited(bytes, noise, response, rest) ::
      var text := Cut(UpToEtx(response));
      Verdict(FeedAll(START, bytes), isText) == Ok(if isText(text) then text else INVALID_TEXT)
    ensures Verdict(FeedAll(START, bytes), isText) == Err(Timeout) <==>
      !exists noise, response, rest :: FrameAwaited(bytes, noise, response, rest)
  {
    forall noise, response, rest | FrameAwaited(bytes, noise, response, rest)
      ensures FeedAll(START, bytes) == Complete(Cut(UpToEtx(response)))
    {
      ResponseIsReceived(noise, response, rest);
    }
    if FeedAll(START, bytes).Complete? {
      var noise, response, rest := OnlyFramedTextIsReturned(bytes, FeedAll(START, bytes).text);
      assert FrameAwaited(bytes, noise, response, rest);
    }
  }

  /** One received byte, in place: the parser's `Feed` on a fixed buffer and a fill position. */
  method OnByte(buf: array<Byte>, state: WaitState, pos: nat, b: Byte)
    returns (next: WaitState, pos': nat, done: bool)
    requires buf.Length == MAX_RESPONSE && pos <= MAX_RESPONSE
    modifies buf
    ensures pos <= pos' <= MAX_RESPONSE && buf[..pos] == old(buf[..pos])
    ensures Feed(Waiting(state, old(buf[..pos])), b) == if done then Complete(buf[..pos']) else Waiting(next, buf[..pos'])
  {
    next, pos', done := state, pos, false;
    match state {
      case WaitSTX => if b == STX { next := WaitR; }
      case WaitR => next := if b == RSP_TAG[0] then WaitS else WaitSTX;
      case WaitS => next := if b == RSP_TAG[1] then WaitP else WaitSTX;
      case WaitP => next := if b == RSP_TAG[2] then WaitColon else WaitSTX;
      case WaitColon => next := if b == RSP_TAG[3] then ReadBody else WaitSTX;
      case ReadBody =>
        if b == ETX {
          done := true;
        } else if pos < MAX_RESPONSE {
          buf[pos] := b;
          pos' := pos + 1;
          assert buf[..pos'] == buf[..pos] + [b];
        }
    }
  }

  /** What one more poll does to the parser. */
  lemma ArrivedStep(poll: nat -> Option<Byte>, n: nat)
    requires n > 0
    ensures
      var p := FeedAll(START, Arrived(poll, n - 1));
      FeedAll(START, Arrived(poll, n)) == match poll(n) { case Some(b) => Feed(p, b) case None => p }
  {
    match poll(n) {
      case Some(b) => FeedOne(START, Arrived(poll, n - 1), b);
      case None => assert Arrived(poll, n) == Arrived(poll, n - 1);
    }
  }

  /** One turn of the query loop: the `n`-th poll, and the byte it may have delivered. */
  method Poll(buf: array<Byte>, state: WaitState, pos: nat, poll: nat -> Option<Byte>, n: nat)
    returns (next: WaitState, pos': nat, done: bool)
    requires buf.Length == MAX_RESPONSE && pos <= MAX_RESPONSE && n > 0
    requires FeedAll(START, Arrived(poll, n - 1)) == Waiting(state, buf[..pos])
    modifies buf
    ensures pos' <= MAX_RESPONSE
    ensures FeedAll(START, Arrived(poll, n)) == if done then Complete(buf[..pos']) else Waiting(next, buf[..pos'])
  {
    next, pos', done := state, pos, false;
    ArrivedStep(poll, n);
    var byte := poll(n);
    if byte.Some? {
      next, pos', done := OnByte(buf, state, pos, byte.value);
    }
  }

  /**
    Always stops, having sent the framed prompt, with the verdict on what arrived within the budget of
    polls.  The kernel's budget is 5,000,000; nothing here depends on its size.
   */
  method Query(prompt: seq<Byte>, poll: nat -> Option<Byte>, isText: seq<Byte> -> bool, budget: nat)
    returns (sent: seq<Byte>, r: Result<seq<Byte>, QueryError>)
    ensures sent == Frame(LLM_TAG, prompt)
    ensures r == Verdict(FeedAll(START, Arrived(poll, budget)), isText)
  {
    sent := [STX] + LLM_TAG + prompt + [ETX];
    var buf := new Byte[MAX_RESPONSE](_ => 0);
    var pos: nat := 0;
    var state := WaitSTX;
    var iters := 0;
    assert buf[..pos] == [];
    while true
      invariant iters <= budget && pos <= MAX_RESPONSE
      invariant FeedAll(START, Arrived(poll, iters)) == Waiting(state, buf[..pos])
      decreases budget - iters
    {
      iters := iters + 1;
      if iters > budget {
        return sent, Err(Timeout);
      }
      var done: bool;
      state, pos, done := Poll(buf, state, pos, poll, iters);
      if done {
        var text := buf[..pos];
        Settled(poll, iters, budget, text);
        assert FeedAll(START, Arrived(poll, budget)) == Complete(text);
        return sent, Ok(if isText(text) then text else INVALID_TEXT);
      }
    }
  }

  lemma Settled(poll: nat -> Option<Byte>, k: nat, budget: nat, text: seq<Byte>)
    requires k <= budget && FeedAll(START, Arrived(poll, k)) == Complete(text)
    ensures FeedAll(START, Arrived(poll, budget)) == Complete(text)
  {
    var rest := ArrivedGrows(poll, k, budget);
    FeedConcat(START, Arrived(poll, k), rest);
    CompleteStays(text, rest);
  }
}
