/**
  The host's end of the serial protocol: the bridge separates terminal output from framed prompts
  and answers each prompt with a framed response.
 */
module LlmBridges {
  import opened Wrappers
  import opened LlmFraming

  type Responder = seq<Byte> -> seq<Byte>

  /** The demultiplexer and everything it has produced: terminal output, prompts seen, bytes sent back. */
  datatype Demux = Demux(
    inQuery: bool, buf: seq<Byte>, terminal: seq<Byte>, prompts: seq<seq<Byte>>, sent: seq<Byte>)

  function TakeByte(d: Demux, b: Byte, respond: Responder): Demux {
    if b == STX then d.(inQuery := true, buf := [])
    else if b == ETX && d.inQuery then
      if LLM_TAG <= d.buf then
        var prompt := d.buf[|LLM_TAG|..];
        d.(inQuery := false, buf := [], prompts := d.prompts + [prompt],
           sent := d.sent + Frame(RSP_TAG, respond(prompt)))
      else d.(inQuery := false, buf := [])
    else if d.inQuery then d.(buf := d.buf + [b])
    else d.(terminal := d.terminal + [b])
  }

  function TakeAll(d: Demux, bytes: seq<Byte>, respond: Responder): Demux {
    if bytes == [] then d else TakeByte(TakeAll(d, bytes[..|bytes| - 1], respond), bytes[|bytes| - 1], respond)
  }

  /** How the byte stream is cut into received chunks makes no difference. */
  lemma {:induction false} ChunksDoNotMatter(d: Demux, a: seq<Byte>, b: seq<Byte>, respond: Responder)
    ensures TakeAll(d, a + b, respond) == TakeAll(TakeAll(d, a, respond), b, respond)
  {
    if b == [] {
      assert a + b == a;
    } else {
      ChunksDoNotMatter(d, a, b[..|b| - 1], respond);
      assert (a + b)[..|a + b| - 1] == a + b[..|b| - 1];
    }
  }

  class LlmBridge {
    var inQuery: bool
    var buf: seq<Byte>
    var terminal: seq<Byte>
    var prompts: seq<seq<Byte>>
    var sent: seq<Byte>

    function State(): Demux
      reads this
    {
      Demux(inQuery, buf, terminal, prompts, sent)
    }

    constructor ()
      ensures State() == Demux(false, [], [], [], [])
    {
      inQuery, buf, terminal, prompts, sent := false, [], [], [], [];
    }

    /** One received chunk. */
    method Receive(data: seq<Byte>, respond: Responder)
      modifies this
      ensures State() == TakeAll(old(State()), data, respond)
    {
      for i := 0 to |data|
        invariant State() == TakeAll(old(State()), data[..i], respond)
      {
        assert data[..i + 1][..i] == data[..i];
        var b := data[i];
        if b == STX {
          buf := [];
          inQuery := true;
        } else if b == ETX && inQuery {
          inQuery := false;
          if LLM_TAG <= buf {
            var query := buf[|LLM_TAG|..];
            prompts := prompts + [query];
            sent := sent + ([STX] + RSP_TAG + respond(query) + [ETX]);
          }
          buf := [];
        } else if inQuery {
          buf := buf + [b];
        } else {
          terminal := terminal + [b];
        }
      }
      assert data[..|data|] == data;
    }
  }

  // ----- The stream the kernel produces -----

  /** Terminal text, or something between STX and ETX. */
  datatype Segment = Text(bytes: seq<Byte>) | Framed(body: seq<Byte>)

  ghost predicate WellFormed(s: Segment) {
    match s
    case Text(bytes) => STX !in bytes
    case Framed(body) => STX !in body && ETX !in body
  }

  function Wire(segments: seq<Segment>): seq<Byte> {
    if segments == [] then [] else
      Wire(segments[..|segments| - 1]) + match segments[|segments| - 1] {
        case Text(bytes) => bytes
        case Framed(body) => Frame([], body)
      }
  }

  function Texts(segments: seq<Segment>): seq<Byte> {
    if segments == [] then [] else
      Texts(segments[..|segments| - 1]) + match segments[|segments| - 1] {
        case Text(bytes) => bytes
        case Framed(_) => []
      }
  }

  /** The prompts among the frames; a frame without the LLM tag carries none. */
  function Prompts(segments: seq<Segment>): seq<seq<Byte>> {
    if segments == [] then [] else
      Prompts(segments[..|segments| - 1]) + match segments[|segments| - 1] {
        case Text(_) => []
        case Framed(body) => if LLM_TAG <= body then [body[|LLM_TAG|..]] else []
      }
  }

  function Replies(prompts: seq<seq<Byte>>, respond: Responder): seq<Byte> {
    if prompts == [] then [] else
      Replies(prompts[..|prompts| - 1], respond) + Frame(RSP_TAG, respond(prompts[|prompts| - 1]))
  }

  lemma {:induction false} TextPasses(d: Demux, bytes: seq<Byte>, respond: Responder)
    requires !d.inQuery && STX !in bytes
    ensures TakeAll(d, bytes, respond) == d.(terminal := d.terminal + bytes)
  {
    if bytes == [] {
      assert d.terminal + bytes == d.terminal;
    } else {
      var init, b := bytes[..|bytes| - 1], bytes[|bytes| - 1];
      TextPasses(d, init, respond);
      assert b in bytes;
      assert d.terminal + bytes == (d.terminal + init) + [b];
    }
  }

  lemma {:induction false} BodyIsBuffered(d: Demux, body: seq<Byte>, respond: Responder)
    requires d.inQuery && STX !in body && ETX !in body
    ensures TakeAll(d, body, respond) == d.(buf := d.buf + body)
  {
    if body == [] {
      assert d.buf + body == d.buf;
    } else {
      var init, b := body[..|body| - 1], body[|body| - 1];
      BodyIsBuffered(d, init, respond);
      assert b in body;
      assert d.buf + body == (d.buf + init) + [b];
    }
  }

  lemma FrameIsTaken(d: Demux, body: seq<Byte>, respond: Responder)
    requires STX !in body && ETX !in body
    ensures TakeAll(d, Frame([], body), respond) ==
            TakeByte(d.(inQuery := true, buf := body), ETX, respond)
  {
    var begun := d.(inQuery := true, buf := []);
    assert Frame([], body) == [STX] + (body + [ETX]);
    ChunksDoNotMatter(d, [STX], body + [ETX], respond);
    ChunksDoNotMatter(begun, body, [ETX], respond);
    assert TakeAll(d, [STX], respond) == begun by { assert [STX][..0] == []; }
    BodyIsBuffered(begun, body, respond);
    assert [] + body == body;
    assert [ETX][..0] == [];
  }

  lemma PromptIsTaken(d: Demux, prompt: seq<Byte>, respond: Responder)
    requires STX !in prompt && ETX !in prompt
    ensures TakeAll(d, Frame(LLM_TAG, prompt), respond) ==
            d.(inQuery := false, buf := [], prompts := d.prompts + [prompt],
               sent := d.sent + Frame(RSP_TAG, respond(prompt)))
  {
    var body := LLM_TAG + prompt;
    assert Frame(LLM_TAG, prompt) == Frame([], body);
    forall b | b in body ensures b != STX && b != ETX {
      assert b in LLM_TAG || b in prompt;
    }
    FrameIsTaken(d, body, respond);
    assert body[|LLM_TAG|..] == prompt;
  }

  /**
    From any stream of text and frames the bridge recovers exactly the prompts, in order, passes
    exactly the text through to the terminal, and sends exactly the framed replies.
   */
  lemma {:induction false} BridgeSeparates(segments: seq<Segment>, respond: Responder)
    requires forall s | s in segments :: WellFormed(s)
    ensures TakeAll(Demux(false, [], [], [], []), Wire(segments), respond) ==
            Demux(false, [], Texts(segments), Prompts(segments), Replies(Prompts(segments), respond))
  {
    if segments != [] {
      var init, s := segments[..|segments| - 1], segments[|segments| - 1];
      assert s in segments;
      BridgeSeparates(init, respond);
      var d := Demux(false, [], Texts(init), Prompts(init), Replies(Prompts(init), respond));
      match s {
        case Text(bytes) =>
          ChunksDoNotMatter(Demux(false, [], [], [], []), Wire(init), bytes, respond);
          TextPasses(d, bytes, respond);
          assert Prompts(segments) == Prompts(init);
        case Framed(body) =>
          ChunksDoNotMatter(Demux(false, [], [], [], []), Wire(init), Frame([], body), respond);
          FrameIsTaken(d, body, respond);
          assert Texts(segments) == Texts(init);
          if LLM_TAG <= body {
            assert Prompts(segments)[..|Prompts(init)|] == Prompts(init);
          } else {
            assert Prompts(segments) == Prompts(init);
          }
      }
    }
  }
}

/** Both ends together. */
module LlmRoundTrip {
  import opened Wrappers
  import opened LlmFraming
  import opened LlmKernel
  import opened LlmBridges

  lemma PromptAfterText(d: Demux, before: seq<Byte>, prompt: seq<Byte>, respond: Responder)
    requires !d.inQuery && d.buf == [] && STX !in before && STX !in prompt && ETX !in prompt
    ensures TakeAll(d, before + Frame(LLM_TAG, prompt), respond) ==
            d.(terminal := d.terminal + before, prompts := d.prompts + [prompt],
               sent := d.sent + Frame(RSP_TAG, respond(prompt)))
  {
    ChunksDoNotMatter(d, before, Frame(LLM_TAG, prompt), respond);
    TextPasses(d, before, respond);
    PromptIsTaken(d.(terminal := d.terminal + before), prompt, respond);
  }

  /** An idle bridge takes one prompt out of the terminal text around it. */
  lemma PromptIsSeparated(d: Demux, before: seq<Byte>, prompt: seq<Byte>, after: seq<Byte>, respond: Responder)
    requires !d.inQuery && d.buf == []
    requires STX !in before && STX !in after && STX !in prompt && ETX !in prompt
    ensures TakeAll(d, before + Frame(LLM_TAG, prompt) + after, respond) ==
            d.(terminal := d.terminal + before + after, prompts := d.prompts + [prompt],
               sent := d.sent + Frame(RSP_TAG, respond(prompt)))
  {
    var start := before + Frame(LLM_TAG, prompt);
    PromptAfterText(d, before, prompt, respond);
    ChunksDoNotMatter(d, start, after, respond);
    TextPasses(TakeAll(d, start, respond), after, respond);
  }

  /**
    A prompt the kernel frames and sends amid terminal text reaches an idle bridge intact, and the
    bridge's framed answer reaches the kernel's parser: up to its first ETX, cut to 1024 bytes, and whole
    but for the cut iff no ETX is among its first 1024 bytes.
   */
  lemma PromptAndResponseSurvive(d: Demux, before: seq<Byte>, prompt: seq<Byte>, after: seq<Byte>,
                                 respond: Responder, noise: seq<Byte>, rest: seq<Byte>)
    requires !d.inQuery && d.buf == []
    requires STX !in before && STX !in after && STX !in prompt && ETX !in prompt
    requires FeedAll(START, noise) == START
    ensures
      var e := TakeAll(d, before + Frame(LLM_TAG, prompt) + after, respond);
      && e.prompts == d.prompts + [prompt] && e.terminal == d.terminal + before + after
      && d.sent <= e.sent
      && FeedAll(START, noise + e.sent[|d.sent|..] + rest) == Complete(Cut(UpToEtx(respond(prompt))))
      && (Cut(UpToEtx(respond(prompt))) == Cut(respond(prompt)) <==> ETX !in Cut(respond(prompt)))
  {
    PromptIsSeparated(d, before, prompt, after, respond);
    ResponseIsReceived(noise, respond(prompt), rest);
    CutUpToEtx(respond(prompt));
    var e := TakeAll(d, before + Frame(LLM_TAG, prompt) + after, respond);
    assert e.sent[|d.sent|..] == Frame(RSP_TAG, respond(prompt));
  }
}
