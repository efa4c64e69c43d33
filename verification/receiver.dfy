/**
 * The receiving side of `IFlytek`: `on_message` parses each server message and, on success,
 * appends the recognised words to `self.text`. A message is modelled after parsing, by what
 * the handler does with it: a text that is not a JSON object is `Malformed`; a key whose value
 * is never used (`sid`, `message`) is only present or absent; a value the handler looks into or
 * iterates over is an `Option`, `None` when its lookup or iteration raises (the exception is
 * swallowed), and an empty object or string where a list is iterated is the empty list, since
 * the loop then runs zero times.
 */
module Receiver {
  import opened Wrappers
  import Encoding
  import Feeder
  import Signer

  /**
   * One candidate of a word group; `w` is its text, `None` when the candidate is not an object
   * with a string `w` (the lookup or the `+=` then raises).
   */
  datatype Candidate = Candidate(w: Option<string>)

  /**
   * One entry of `data.result.ws`; `cw` holds its candidates. `cw` is `None` when the entry is
   * not an object with `cw`, or when `cw` is a value the loop cannot walk without raising (a
   * number, null, a non-empty string or object); `{}` and `""` are `Some([])`.
   */
  datatype WordGroup = WordGroup(cw: Option<seq<Candidate>>)

  /**
   * A server message. `code` is `None` when the key is missing; a code that is not an integer
   * takes the error branch like any non-zero code, so it is written as one. `hasSid` and
   * `hasMessage` say whether those keys are present: their values only reach the printed error
   * line. `ws` is `None` when any of `data`, `data.result` or `data.result.ws` is missing or not
   * of a shape the lookups and the loop accept, with `{}` and `""` as `Some([])`.
   */
  datatype Message =
    | Malformed
    | Envelope(code: Option<int>, hasSid: bool, hasMessage: bool, ws: Option<seq<WordGroup>>)

  // ------------------------------------------------------------ the result loop, as the handler runs it

  /** The candidates' texts joined in order, failing at the first candidate without `w`. */
  function Words(cw: seq<Candidate>): Option<string>
    decreases |cw|
  {
    if cw == [] then Some("")
    else match Words(cw[..|cw| - 1])
      case None => None
      case Some(t) =>
        match cw[|cw| - 1].w
        case None => None
        case Some(x) => Some(t + x)
  }

  /** The word groups' texts joined in order, failing at the first group without `cw` or candidate without `w`. */
  function Fragments(ws: seq<WordGroup>): Option<string>
    decreases |ws|
  {
    if ws == [] then Some("")
    else match Fragments(ws[..|ws| - 1])
      case None => None
      case Some(t) =>
        match ws[|ws| - 1].cw
        case None => None
        case Some(cw) =>
          match Words(cw)
          case None => None
          case Some(u) => Some(t + u)
  }

  /**
   * The nested loop of `on_message` over `data` and each group's `cw`, building `result`;
   * a missing key ends it with no result.
   */
  method Gather(ws: seq<WordGroup>) returns (r: Option<string>)
    ensures r == (if AllPresent(ws) then Some(Flat(ws)) else None)
  {
    FragmentsSpec(ws);
    var result := "";
    var i := 0;
    while i < |ws|
      invariant 0 <= i <= |ws|
      invariant Fragments(ws[..i]) == Some(result)
    {
      if ws[i].cw.None? {
        return None;
      }
      var cw := ws[i].cw.value;
      ghost var before := result;
      var j := 0;
      while j < |cw|
        invariant 0 <= j <= |cw|
        invariant Words(cw[..j]).Some? && result == before + Words(cw[..j]).value
      {
        if cw[j].w.None? {
          return None;
        }
        assert cw[..j + 1][..j] == cw[..j];
        result := result + cw[j].w.value;
        j := j + 1;
      }
      assert cw[..j] == cw;
      assert ws[..i + 1][..i] == ws[..i];
      i := i + 1;
    }
    assert ws[..i] == ws;
    return Some(result);
  }

  // ------------------------------------------------------------ reference definition of the result

  /** Every group has `cw` and every candidate has `w`: no lookup in the loop fails. */
  predicate AllPresent(ws: seq<WordGroup>)
  {
    forall i :: 0 <= i < |ws| ==> ws[i].cw.Some? && AllWords(ws[i].cw.value)
  }

  predicate AllWords(cw: seq<Candidate>)
  {
    forall j :: 0 <= j < |cw| ==> cw[j].w.Some?
  }

  /** The text of well-formed groups: the first candidate's text, then the rest. */
  function Text(cw: seq<Candidate>): string
    requires AllWords(cw)
  {
    if cw == [] then "" else cw[0].w.value + Text(cw[1..])
  }

  /** The text of well-formed word groups: the first group's text, then the rest. */
  function Flat(ws: seq<WordGroup>): string
    requires AllPresent(ws)
  {
    if ws == [] then "" else Text(ws[0].cw.value) + Flat(ws[1..])
  }

  lemma {:induction false} TextSnoc(cw: seq<Candidate>, c: Candidate)
    requires AllWords(cw + [c])
    ensures AllWords(cw) && c.w.Some? && Text(cw + [c]) == Text(cw) + c.w.value
    decreases |cw|
  {
    assert forall j :: 0 <= j < |cw| ==> cw[j] == (cw + [c])[j];
    assert (cw + [c])[|cw|] == c;
    if cw == [] {
      assert cw + [c] == [c];
    } else {
      assert (cw + [c])[1..] == cw[1..] + [c];
      TextSnoc(cw[1..], c);
    }
  }

  lemma {:induction false} FlatSnoc(ws: seq<WordGroup>, g: WordGroup)
    requires AllPresent(ws + [g])
    ensures AllPresent(ws) && g.cw.Some? && AllWords(g.cw.value)
    ensures Flat(ws + [g]) == Flat(ws) + Text(g.cw.value)
    decreases |ws|
  {
    assert forall i :: 0 <= i < |ws| ==> ws[i] == (ws + [g])[i];
    assert (ws + [g])[|ws|] == g;
    if ws == [] {
      assert ws + [g] == [g];
    } else {
      assert (ws + [g])[1..] == ws[1..] + [g];
      FlatSnoc(ws[1..], g);
    }
  }

  /** The candidates' loop yields a text exactly when every candidate has `w`, and then yields their texts in order. */
  lemma {:induction false} WordsSpec(cw: seq<Candidate>)
    ensures Words(cw) == (if AllWords(cw) then Some(Text(cw)) else None)
    decreases |cw|
  {
    if cw != [] {
      var init := cw[..|cw| - 1];
      var c := cw[|cw| - 1];
      assert cw == init + [c];
      WordsSpec(init);
      assert AllWords(cw) <==> AllWords(init) && c.w.Some? by {
        if AllWords(init) && c.w.Some? {
          forall j | 0 <= j < |cw| ensures cw[j].w.Some? {
            if j < |init| { assert cw[j] == init[j]; }
          }
        }
        if AllWords(cw) {
          forall j | 0 <= j < |init| ensures init[j].w.Some? {
            assert init[j] == cw[j];
          }
        }
      }
      if AllWords(cw) {
        TextSnoc(init, c);
      }
    }
  }

  /**
   * The group loop yields a text exactly when no lookup fails, and then yields all candidates'
   * texts, group by group, in order.
   */
  lemma {:induction false} FragmentsSpec(ws: seq<WordGroup>)
    ensures Fragments(ws) == (if AllPresent(ws) then Some(Flat(ws)) else None)
    decreases |ws|
  {
    if ws != [] {
      var init := ws[..|ws| - 1];
      var g := ws[|ws| - 1];
      assert ws == init + [g];
      FragmentsSpec(init);
      assert AllPresent(ws) <==> AllPresent(init) && g.cw.Some? && AllWords(g.cw.value) by {
        if AllPresent(init) && g.cw.Some? && AllWords(g.cw.value) {
          forall i | 0 <= i < |ws| ensures ws[i].cw.Some? && AllWords(ws[i].cw.value) {
            if i < |init| { assert ws[i] == init[i]; }
          }
        }
        if AllPresent(ws) {
          forall i | 0 <= i < |init| ensures init[i].cw.Some? && AllWords(init[i].cw.value) {
            assert init[i] == ws[i];
          }
        }
      }
      if g.cw.Some? {
        WordsSpec(g.cw.value);
      }
      if AllPresent(ws) {
        FlatSnoc(init, g);
      }
    }
  }

  // ------------------------------------------------------------ what a message adds to the text

  /**
   * What `on_message` appends to `self.text` for `m`: the recognised words when the message
   * parses, has `code` and `sid`, `code` is 0 and every result key is present; otherwise nothing.
   */
  function Contribution(m: Message): string
  {
    if m.Envelope? && m.code == Some(0) && m.hasSid && m.ws.Some? then Recognised(m.ws.value) else ""
  }

  /** The words of a result, or "" when the result loop fails. */
  function Recognised(ws: seq<WordGroup>): string
  {
    match Fragments(ws)
    case None => ""
    case Some(t) => t
  }

  /** A message is accepted when it parses, `code` and `sid` are present, `code` is 0 and the result is complete. */
  predicate Accepted(m: Message)
  {
    m.Envelope? && m.code == Some(0) && m.hasSid && m.ws.Some? && AllPresent(m.ws.value)
  }

  /**
   * An accepted message adds its words in order; every other message (not JSON, a missing
   * key, a non-zero code) adds nothing.
   */
  lemma ContributionSpec(m: Message)
    ensures Contribution(m) == (if Accepted(m) then Flat(m.ws.value) else "")
  {
    if m.Envelope? && m.ws.Some? {
      FragmentsSpec(m.ws.value);
    }
  }

  /** An error reply (non-zero code) adds nothing, whatever result it carries. */
  lemma ErrorAddsNothing(code: int, hasSid: bool, hasMessage: bool, ws: Option<seq<WordGroup>>)
    requires code != 0
    ensures Contribution(Envelope(Some(code), hasSid, hasMessage, ws)) == ""
  {
  }

  /** The text of two runs of word groups is the first's text followed by the second's. */
  lemma {:induction false} FlatAppend(a: seq<WordGroup>, b: seq<WordGroup>)
    requires AllPresent(a) && AllPresent(b)
    ensures AllPresent(a + b) && Flat(a + b) == Flat(a) + Flat(b)
    decreases |a|
  {
    forall i | 0 <= i < |a + b| ensures (a + b)[i].cw.Some? && AllWords((a + b)[i].cw.value) {
      if i < |a| { assert (a + b)[i] == a[i]; } else { assert (a + b)[i] == b[i - |a|]; }
    }
    if a == [] {
      assert a + b == b;
    } else {
      var tail := a[1..];
      forall i | 0 <= i < |tail| ensures tail[i].cw.Some? && AllWords(tail[i].cw.value) {
        assert tail[i] == a[i + 1];
      }
      assert (a + b)[1..] == tail + b;
      assert (a + b)[0] == a[0];
      FlatAppend(tail, b);
      Encoding.AppendAssoc(Text(a[0].cw.value), Flat(tail), Flat(b));
    }
  }

  /**
   * A group whose `cw` is empty (an empty list, `{}` or `""`) adds no words, and the words of
   * the groups around it are still appended.
   */
  lemma EmptyGroupIgnored(hasMessage: bool, a: seq<WordGroup>, b: seq<WordGroup>)
    requires AllPresent(a) && AllPresent(b)
    ensures Contribution(Envelope(Some(0), true, hasMessage, Some(a + [WordGroup(Some([]))] + b)))
      == Flat(a) + Flat(b)
  {
    var gb := [WordGroup(Some([]))] + b;
    EmptyGroupFirst(b);
    FlatAppend(a, gb);
    Encoding.AppendAssoc(a, [WordGroup(Some([]))], b);
    var m := Envelope(Some(0), true, hasMessage, Some(a + gb));
    assert Accepted(m);
    ContributionSpec(m);
  }

  lemma EmptyGroupFirst(b: seq<WordGroup>)
    requires AllPresent(b)
    ensures var gb := [WordGroup(Some([]))] + b; AllPresent(gb) && Flat(gb) == Flat(b)
  {
    var gb := [WordGroup(Some([]))] + b;
    forall i | 0 <= i < |gb| ensures gb[i].cw.Some? && AllWords(gb[i].cw.value) {
      if i > 0 { assert gb[i] == b[i - 1]; }
    }
    assert gb[1..] == b;
    assert Flat(gb) == Text([]) + Flat(b);
  }

  /** The text a run of messages leaves, received in order starting from "". */
  function Transcript(msgs: seq<Message>): string
    decreases |msgs|
  {
    if msgs == [] then "" else Transcript(msgs[..|msgs| - 1]) + Contribution(msgs[|msgs| - 1])
  }

  /** The transcript of two runs of messages is the first's followed by the second's. */
  lemma {:induction false} TranscriptAppend(a: seq<Message>, b: seq<Message>)
    ensures Transcript(a + b) == Transcript(a) + Transcript(b)
    decreases |b|
  {
    if b == [] {
      assert a + b == a;
    } else {
      var init, m := b[..|b| - 1], b[|b| - 1];
      assert b == init + [m];
      assert a + b == (a + init) + [m];
      TranscriptAppend(a, init);
      TranscriptSnoc(a + init, m);
      TranscriptSnoc(init, m);
      Encoding.AppendAssoc(Transcript(a), Transcript(init), Contribution(m));
    }
  }

  /** One more message appends its contribution to the transcript. */
  lemma TranscriptSnoc(msgs: seq<Message>, m: Message)
    ensures Transcript(msgs + [m]) == Transcript(msgs) + Contribution(m)
  {
    assert (msgs + [m])[..|msgs|] == msgs;
  }

  /** A message that adds nothing (an error or a malformed one) can be dropped without changing the transcript. */
  lemma IgnoredMessage(a: seq<Message>, m: Message, b: seq<Message>)
    requires !Accepted(m) || Flat(m.ws.value) == ""
    ensures Transcript(a + [m] + b) == Transcript(a + b)
  {
    ContributionSpec(m);
    TranscriptAppend(a + [m], b);
    TranscriptAppend(a, b);
    TranscriptSnoc(a, m);
    assert Transcript(a) + "" == Transcript(a);
  }

  // ------------------------------------------------------------ the client object

  /** The recogniser client: its credentials, the audio encoding it announces, and the text received so far. */
  class IFlytek {
    const appId: string
    const apiKey: string
    const apiSecret: string
    /** The "encoding" field of every frame; "lame" for MP3 audio. */
    var format: string
    /** The recognised text accumulated so far. */
    var text: string

    constructor (appId: string, apiKey: string, apiSecret: string)
      ensures this.appId == appId && this.apiKey == apiKey && this.apiSecret == apiSecret
      ensures format == "lame" && text == ""
    {
      this.appId := appId;
      this.apiKey := apiKey;
      this.apiSecret := apiSecret;
      format := "lame";
      text := "";
    }

    /** `create_url` for this client's key and secret, signed at `date` with `hmac`. */
    method CreateUrl(hmac: Signer.Hmac, date: string) returns (url: string)
      ensures url == Signer.CreateUrl(hmac, apiKey, apiSecret, date)
      ensures var parts := Encoding.Split(url, '?'); |parts| == 2 && parts[0] == Signer.Endpoint
    {
      url := Signer.CreateUrl(hmac, apiKey, apiSecret, date);
      Signer.CreateUrlShape(hmac, apiKey, apiSecret, date);
    }

    /** `on_open`: the frames the feeder sends for `audio`, announcing this client's app id and format. */
    method OnOpen(audio: seq<Encoding.byte>) returns (sent: seq<Feeder.Frame>)
      ensures sent == Feeder.Session(appId, format, audio)
    {
      sent := Feeder.Feed(appId, format, audio);
    }

    /**
     * `on_message`: parse the message; on a non-zero code report the error; on success
     * gather the words and append them to `text`. Any failure leaves `text` unchanged.
     */
    method OnMessage(m: Message)
      modifies this`text
      ensures text == old(text) + Contribution(m)
    {
      if m.Malformed? || m.code.None? || !m.hasSid {
        return;
      }
      if m.code.value != 0 {
        return;
      }
      if m.ws.None? {
        return;
      }
      var result := Gather(m.ws.value);
      FragmentsSpec(m.ws.value);
      if result.Some? {
        text := text + result.value;
      }
    }
  }

  /** Delivering messages one by one to a client appends their transcript to its `text`. */
  method Receive(client: IFlytek, msgs: seq<Message>)
    modifies client`text
    ensures client.text == old(client.text) + Transcript(msgs)
  {
    var k := 0;
    while k < |msgs|
      invariant 0 <= k <= |msgs|
      invariant client.text == old(client.text) + Transcript(msgs[..k])
    {
      client.OnMessage(msgs[k]);
      assert msgs[..k + 1] == msgs[..k] + [msgs[k]];
      TranscriptSnoc(msgs[..k], msgs[k]);
      Encoding.AppendAssoc(old(client.text), Transcript(msgs[..k]), Contribution(msgs[k]));
      k := k + 1;
    }
    assert msgs[..k] == msgs;
  }

  /** A successful reply carrying one word. */
  function Reply(word: string): Message
  {
    Envelope(Some(0), true, true, Some([WordGroup(Some([Candidate(Some(word))]))]))
  }

  /** A successful reply adds exactly its word. */
  lemma ReplyAdds(word: string)
    ensures Contribution(Reply(word)) == word
  {
    var cw := [Candidate(Some(word))];
    var ws := [WordGroup(Some(cw))];
    ContributionSpec(Reply(word));
    assert Accepted(Reply(word));
    assert Text(cw) == word + Text([]) by { assert cw[1..] == []; }
    assert Flat(ws) == Text(cw) + Flat([]) by { assert ws[1..] == []; }
    assert word + "" == word;
  }

  /**
   * "hello", an error reply, a text that is not JSON and " world" leave "hello world":
   * the failures in between add nothing.
   */
  lemma MixedReplies()
    ensures Transcript([Reply("hello"), Envelope(Some(10165), true, true, None), Malformed, Reply(" world")])
      == "hello world"
  {
    var msgs := [Reply("hello"), Envelope(Some(10165), true, true, None), Malformed, Reply(" world")];
    ReplyAdds("hello");
    ReplyAdds(" world");
    var err := Envelope(Some(10165), true, true, None);
    assert msgs[..3] == [Reply("hello"), err, Malformed];
    assert msgs[..3][..2] == [Reply("hello"), err];
    assert msgs[..3][..2][..1] == [Reply("hello")];
    assert [Reply("hello")][..0] == [];
    assert Transcript([Reply("hello")]) == "" + "hello" == "hello";
    assert Transcript([Reply("hello"), err]) == "hello" + "" == "hello";
    assert Transcript(msgs[..3]) == "hello" + "" == "hello";
  }
}
