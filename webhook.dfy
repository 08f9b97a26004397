/**
 * The SMS webhook of index.js:35-151, without the HTTP server, the language
 * model client and the logging.
 *
 * One request carries the form fields `Body` and `From`. The handler looks
 * up the sender's short conversation memory, builds the prompt (system
 * prompt, remembered turns, the new message), asks the language model for a
 * completion, remembers the new exchange (at most the last eight turns) and
 * answers with a TwiML document whose single message is the clamped,
 * XML-escaped reply. When the model call fails, the memory is left alone and
 * the reply is a fixed apology.
 */
module Webhook {
  import opened Wrappers
  import Text
  import Xml

  // ---------------------------------------------------------------------------
  // Data

  /** Who wrote a turn of the conversation. */
  datatype Role = System | User | Assistant

  /** One chat message: `{ role, content }`. */
  datatype Turn = Turn(role: Role, content: string)

  /** One successful round: the sender's message and the reply it got. */
  datatype Exchange = Exchange(incoming: string, reply: string)

  /**
   * What the language-model call gave back: the content of the first
   * choice's message (absent when the response has no choice, no message or
   * no content), or a failure (the call threw).
   */
  datatype Completion = Completed(content: Option<string>) | Failed

  /**
   * The reply sent when the model gives nothing usable. This constant and the
   * next are written as a few short literals so that proofs can look at
   * single characters of them.
   */
  const DefaultReply: string := "Thanks for reaching out! " + "We\U{2019}ll be in touch shortly."

  /** The reply sent when the model call fails. */
  const SnagReply: string :=
    "Quick heads up \U{2014} our " + "assistant hit a snag. " + "Would weekday or weekend " + "work better for a quick call?"

  /** The conversation key used when the request names no sender. */
  const UnknownSender: string := "unknown"

  /** How many turns of a conversation are remembered. */
  const HistoryLimit: nat := 8

  /** The TwiML document around the message text. */
  const EnvelopeOpen: string := "<Response><Message>"
  const EnvelopeClose: string := "</Message></Response>"

  // ---------------------------------------------------------------------------
  // Reading the request

  /** `req.body.From || "unknown"`: an absent or empty sender becomes `unknown`. */
  function Sender(from: Option<string>): (r: string)
    ensures r != []
    ensures from.Some? && from.value != [] ==> r == from.value
    ensures from == None || from == Some([]) ==> r == UnknownSender
  {
    if from.Some? && from.value != [] then from.value else UnknownSender
  }

  /** `(req.body.Body || "").trim()`: the message text without surrounding white space. */
  function Incoming(body: Option<string>): (r: string)
    ensures body == None ==> r == []
    ensures body.Some? ==> exists a :: Text.IsTrimAt(body.value, a, r)
  {
    if body.Some? then
      Text.TrimRemovesOnlyEnds(body.value);
      Text.Trim(body.value)
    else []
  }

  /**
   * The message text is empty when the body is absent or blank; otherwise
   * it is no longer than the body and neither starts nor ends with white space.
   */
  lemma IncomingTrimmed(body: Option<string>)
    ensures var r := Incoming(body);
      && (body == None ==> r == [])
      && (body.Some? ==> |r| <= |body.value|)
      && (r != [] ==> !Text.IsWhitespace(r[0]) && !Text.IsWhitespace(r[|r| - 1]))
      && (body.Some? ==> (r == [] <==> forall i :: 0 <= i < |body.value| ==> Text.IsWhitespace(body.value[i])))
      && (body.Some? ==> exists a :: Text.IsTrimAt(body.value, a, r))
  {
  }

  // ---------------------------------------------------------------------------
  // Choosing the reply

  /** `content?.trim() || fallback`: the trimmed content unless it is absent or blank. */
  function Pick(content: Option<string>, fallback: string): (r: string)
    ensures content == None ==> r == fallback
    ensures content.Some? && (forall i :: 0 <= i < |content.value| ==> Text.IsWhitespace(content.value[i])) ==>
      r == fallback
    ensures content.Some? && (exists i :: 0 <= i < |content.value| && !Text.IsWhitespace(content.value[i])) ==>
      r != [] && exists a :: Text.IsTrimAt(content.value, a, r)
  {
    if content.Some? && Text.Trim(content.value) != [] then
      Text.TrimRemovesOnlyEnds(content.value);
      Text.Trim(content.value)
    else fallback
  }

  /** The reply the handler sends for a model outcome. */
  function ReplyFor(outcome: Completion): (r: string)
    ensures outcome == Failed ==> r == SnagReply
    ensures r != [] && !Text.IsWhitespace(r[0]) && !Text.IsWhitespace(r[|r| - 1])
  {
    FixedRepliesTrimmed();
    match outcome
    case Failed => SnagReply
    case Completed(content) => Pick(content, DefaultReply)
  }

  /** The two fixed replies have no white space at either end. */
  lemma FixedRepliesTrimmed()
    ensures |DefaultReply| == 51 && !Text.IsWhitespace(DefaultReply[0]) && !Text.IsWhitespace(DefaultReply[50])
    ensures |SnagReply| == 97 && !Text.IsWhitespace(SnagReply[0]) && !Text.IsWhitespace(SnagReply[96])
  {
    assert DefaultReply[0] == 'T' && DefaultReply[50] == '.';
    assert SnagReply[0] == 'Q' && SnagReply[96] == '?';
  }

  /**
   * A failed call gives the apology; an absent or blank completion keeps the
   * default reply; any other completion is sent trimmed. The reply is never
   * empty and never starts or ends with white space.
   */
  lemma ReplyForCases(outcome: Completion)
    ensures outcome == Failed ==> ReplyFor(outcome) == SnagReply
    ensures outcome == Completed(None) ==> ReplyFor(outcome) == DefaultReply
    ensures outcome.Completed? && outcome.content.Some? ==>
      var c := outcome.content.value;
      && ((forall i :: 0 <= i < |c| ==> Text.IsWhitespace(c[i])) ==> ReplyFor(outcome) == DefaultReply)
      && ((exists i :: 0 <= i < |c| && !Text.IsWhitespace(c[i])) ==> ReplyFor(outcome) == Text.Trim(c))
    ensures var r := ReplyFor(outcome);
      r != [] && !Text.IsWhitespace(r[0]) && !Text.IsWhitespace(r[|r| - 1])
  {
    FixedRepliesTrimmed();
  }

  // ---------------------------------------------------------------------------
  // Conversation memory

  /** `xs.slice(-8)`: the sequence with its oldest elements dropped until at most `HistoryLimit` are left. */
  function Recent<T>(xs: seq<T>): (r: seq<T>)
    ensures |r| <= HistoryLimit && |r| <= |xs|
    decreases |xs|
  {
    if |xs| <= HistoryLimit then xs else Recent(xs[1..])
  }

  /** `Recent` is the slice holding the last `HistoryLimit` elements, or all of them when there are fewer. */
  lemma {:induction false} RecentIsSlice<T>(xs: seq<T>)
    ensures |Recent(xs)| == if |xs| <= HistoryLimit then |xs| else HistoryLimit
    ensures Recent(xs) == xs[|xs| - |Recent(xs)|..]
    decreases |xs|
  {
    if |xs| > HistoryLimit {
      RecentIsSlice(xs[1..]);
      assert xs[1..][|xs| - 1 - |Recent(xs)|..] == xs[|xs| - |Recent(xs)|..];
    }
  }

  /** The memory after one exchange: the last eight turns of the old memory followed by the message and the reply. */
  function Remember(history: seq<Turn>, incoming: string, reply: string): (r: seq<Turn>)
    ensures 2 <= |r| <= HistoryLimit
    ensures r[|r| - 2] == Turn(User, incoming) && r[|r| - 1] == Turn(Assistant, reply)
  {
    var grown := history + [Turn(User, incoming), Turn(Assistant, reply)];
    RecentIsSlice(grown);
    Recent(grown)
  }

  /** The memory after an exchange is the slice of the old memory and the exchange that starts at `k`. */
  lemma RememberSlice(history: seq<Turn>, incoming: string, reply: string)
    ensures var grown := history + [Turn(User, incoming), Turn(Assistant, reply)];
      var r := Remember(history, incoming, reply);
      && |r| == (if |grown| <= HistoryLimit then |grown| else HistoryLimit)
      && forall j :: 0 <= j < |r| ==> r[j] == grown[|grown| - |r| + j]
  {
    RecentIsSlice(history + [Turn(User, incoming), Turn(Assistant, reply)]);
  }

  /** The memory after an exchange ends with the message and then the reply. */
  lemma RememberEnds(history: seq<Turn>, incoming: string, reply: string)
    ensures var r := Remember(history, incoming, reply);
      2 <= |r| && r[|r| - 2] == Turn(User, incoming) && r[|r| - 1] == Turn(Assistant, reply)
  {
    var grown := history + [Turn(User, incoming), Turn(Assistant, reply)];
    RememberSlice(history, incoming, reply);
    assert grown[|grown| - 2] == Turn(User, incoming);
    assert grown[|grown| - 1] == Turn(Assistant, reply);
  }

  /** The turns of the memory before the new exchange are the most recent turns of the old memory. */
  lemma RememberEarlier(history: seq<Turn>, incoming: string, reply: string)
    ensures var r := Remember(history, incoming, reply);
      && 2 <= |r| && |r| - 2 <= |history|
      && r[..|r| - 2] == history[|history| - (|r| - 2)..]
  {
    var grown := history + [Turn(User, incoming), Turn(Assistant, reply)];
    var r := Remember(history, incoming, reply);
    RememberSlice(history, incoming, reply);
    var k := |grown| - |r|;
    forall j | 0 <= j < |r| - 2
      ensures r[..|r| - 2][j] == history[k..][j]
    {
      assert r[j] == grown[k + j];
    }
    assert r[..|r| - 2] == history[k..];
  }

  /** While there is room, the memory keeps every turn. */
  lemma RememberShort(history: seq<Turn>, incoming: string, reply: string)
    requires |history| + 2 <= HistoryLimit
    ensures Remember(history, incoming, reply) == history + [Turn(User, incoming), Turn(Assistant, reply)]
  {
  }

  /**
   * After an exchange the memory holds at most eight turns and ends with
   * the message and the reply; the turns before them are the most recent
   * ones of the old memory.
   */
  lemma RememberShape(history: seq<Turn>, incoming: string, reply: string)
    ensures var r := Remember(history, incoming, reply);
      && 2 <= |r| <= HistoryLimit
      && |r| - 2 <= |history|
      && r[|r| - 2] == Turn(User, incoming) && r[|r| - 1] == Turn(Assistant, reply)
      && r[..|r| - 2] == history[|history| - (|r| - 2)..]
      && (|history| + 2 <= HistoryLimit ==> r == history + [Turn(User, incoming), Turn(Assistant, reply)])
  {
    RememberEnds(history, incoming, reply);
    RememberEarlier(history, incoming, reply);
    if |history| + 2 <= HistoryLimit {
      RememberShort(history, incoming, reply);
    }
  }

  /** Keeping the recent part of a sequence and then of its extension keeps the recent part of the whole. */
  lemma {:induction false} RecentAppend<T>(a: seq<T>, b: seq<T>)
    ensures Recent(Recent(a) + b) == Recent(a + b)
    decreases |a|
  {
    if |a| > HistoryLimit {
      RecentAppend(a[1..], b);
      assert (a + b)[1..] == a[1..] + b;
    }
  }

  /** A memory of whole exchanges: a user turn then an assistant turn, repeated. */
  predicate Alternates(h: seq<Turn>)
    decreases |h|
  {
    h == [] || (|h| >= 2 && h[0].role == User && h[1].role == Assistant && Alternates(h[2..]))
  }

  /** Whole exchanges followed by whole exchanges. */
  lemma {:induction false} AlternatesAppend(a: seq<Turn>, b: seq<Turn>)
    requires Alternates(a) && Alternates(b)
    ensures Alternates(a + b)
    decreases |a|
  {
    if a == [] {
      assert a + b == b;
    } else {
      AlternatesAppend(a[2..], b);
      assert (a + b)[2..] == a[2..] + b;
    }
  }

  /** Dropping whole exchanges from the front leaves whole exchanges. */
  lemma {:induction false} AlternatesDrop(h: seq<Turn>, k: nat)
    requires Alternates(h) && k <= |h| && k % 2 == 0
    ensures Alternates(h[k..])
    decreases k
  {
    if k > 0 {
      AlternatesDrop(h[2..], k - 2);
      assert h[2..][k - 2..] == h[k..];
    }
  }

  /** A memory made of whole exchanges has an even number of turns. */
  lemma {:induction false} AlternatesEven(h: seq<Turn>)
    requires Alternates(h)
    ensures |h| % 2 == 0
    decreases |h|
  {
    if h != [] {
      AlternatesEven(h[2..]);
    }
  }

  /** Remembering an exchange keeps the memory made of whole exchanges. */
  lemma RememberAlternates(history: seq<Turn>, incoming: string, reply: string)
    requires Alternates(history)
    ensures Alternates(Remember(history, incoming, reply))
  {
    var pair := [Turn(User, incoming), Turn(Assistant, reply)];
    assert Alternates(pair) by {
      assert pair[2..] == [];
    }
    AlternatesAppend(history, pair);
    AlternatesEven(history);
    var grown := history + pair;
    RecentIsSlice(grown);
    if |grown| > HistoryLimit {
      AlternatesDrop(grown, |grown| - HistoryLimit);
    }
  }

  /** The turns of a sequence of exchanges, each a message and its reply. */
  function Transcript(exchanges: seq<Exchange>): (r: seq<Turn>)
    ensures |r| == 2 * |exchanges|
  {
    if exchanges == [] then []
    else [Turn(User, exchanges[0].incoming), Turn(Assistant, exchanges[0].reply)] + Transcript(exchanges[1..])
  }

  /** The memory after a sequence of successful exchanges with one sender. */
  function Replay(history: seq<Turn>, exchanges: seq<Exchange>): seq<Turn>
    decreases |exchanges|
  {
    if exchanges == [] then history
    else Replay(Remember(history, exchanges[0].incoming, exchanges[0].reply), exchanges[1..])
  }

  /** The turns of a first exchange followed by those of the rest. */
  lemma TranscriptCons(exchanges: seq<Exchange>)
    requires exchanges != []
    ensures Transcript(exchanges) ==
      [Turn(User, exchanges[0].incoming), Turn(Assistant, exchanges[0].reply)] + Transcript(exchanges[1..])
  {
  }

  /** Remembering one exchange and then more turns keeps the recent part of all of them. */
  lemma RememberThen(history: seq<Turn>, e: Exchange, rest: seq<Turn>)
    ensures Recent(Remember(history, e.incoming, e.reply) + rest)
      == Recent(history + ([Turn(User, e.incoming), Turn(Assistant, e.reply)] + rest))
  {
    var pair := [Turn(User, e.incoming), Turn(Assistant, e.reply)];
    RecentAppend(history + pair, rest);
    assert history + pair + rest == history + (pair + rest);
  }

  /** However many exchanges there are, the memory is the last eight turns of the whole conversation. */
  lemma {:induction false} ReplayKeepsRecent(history: seq<Turn>, exchanges: seq<Exchange>)
    requires |history| <= HistoryLimit
    ensures Replay(history, exchanges) == Recent(history + Transcript(exchanges))
    decreases |exchanges|
  {
    if exchanges == [] {
      assert history + Transcript(exchanges) == history;
    } else {
      var e := exchanges[0];
      ReplayKeepsRecent(Remember(history, e.incoming, e.reply), exchanges[1..]);
      RememberThen(history, e, Transcript(exchanges[1..]));
      TranscriptCons(exchanges);
    }
  }

  // ---------------------------------------------------------------------------
  // The response

  /** The TwiML answer: one message holding the clamped, escaped reply. */
  function ResponseBody(reply: string): (r: string)
    ensures |EnvelopeOpen| + |EnvelopeClose| <= |r|
    ensures r[..|EnvelopeOpen|] == EnvelopeOpen && r[|r| - |EnvelopeClose|..] == EnvelopeClose
    ensures var inner := r[|EnvelopeOpen|..|r| - |EnvelopeClose|];
      '<' !in inner && '>' !in inner && '"' !in inner && '\'' !in inner
  {
    var inner := Xml.Escape(Text.ClampSms(reply));
    EnvelopeParts(inner);
    EnvelopeOpen + inner + EnvelopeClose
  }

  /** The envelope around a text can be taken apart again. */
  lemma EnvelopeParts(inner: string)
    ensures var r := EnvelopeOpen + inner + EnvelopeClose;
      && r[..|EnvelopeOpen|] == EnvelopeOpen
      && r[|r| - |EnvelopeClose|..] == EnvelopeClose
      && r[|EnvelopeOpen|..|r| - |EnvelopeClose|] == inner
  {
  }

  /**
   * The answer is the envelope around a message text that holds no markup,
   * whose every `&` begins an entity reference, and that decodes to the
   * clamped reply of at most `SmsLimit` characters.
   */
  lemma ResponseBodyDecodes(reply: string)
    ensures var r := ResponseBody(reply);
      && |EnvelopeOpen| + |EnvelopeClose| <= |r|
      && r[..|EnvelopeOpen|] == EnvelopeOpen
      && r[|r| - |EnvelopeClose|..] == EnvelopeClose
      && var inner := r[|EnvelopeOpen|..|r| - |EnvelopeClose|];
      && '<' !in inner && '>' !in inner
      && Xml.AmpersandsBeginEntities(inner)
      && Xml.Unescape(inner) == Text.ClampSms(reply)
      && |Xml.Unescape(inner)| <= Text.SmsLimit
  {
    var text := Text.ClampSms(reply);
    EnvelopeParts(Xml.Escape(text));
    Xml.EscapedIsWellFormed(text);
    Xml.UnescapeEscape(text);
  }

  // ---------------------------------------------------------------------------
  // The handler

  /** The server's state: each sender's remembered turns, keyed by the `From` field. */
  class Store {
    /** `conversations`, the per-sender memory. */
    var conversations: map<string, seq<Turn>>

    /** The content of the system message that opens every prompt. */
    const systemPrompt: string

    /** Every memory holds at most eight turns, made of whole exchanges. */
    ghost predicate Valid()
      reads this
    {
      forall id :: id in conversations ==>
        |conversations[id]| <= HistoryLimit && Alternates(conversations[id])
    }

    /** A server with no conversations yet. */
    constructor(systemPrompt: string)
      ensures Valid()
      ensures conversations == map[]
      ensures this.systemPrompt == systemPrompt
    {
      conversations := map[];
      this.systemPrompt := systemPrompt;
    }

    /** `conversations.get(from) || []`: the sender's memory, empty for a new sender. */
    function History(from: string): (h: seq<Turn>)
      reads this
      ensures from !in conversations ==> h == []
      ensures Valid() ==> |h| <= HistoryLimit && Alternates(h)
    {
      if from in conversations then conversations[from] else []
    }

    /**
     * Stores the memory after one exchange with `from`: the old memory, the
     * message and the reply, cut to the last eight turns.
     */
    method Record(from: string, history: seq<Turn>, incoming: string, reply: string)
      requires Valid() && history == History(from)
      modifies this
      ensures Valid()
      ensures conversations == old(conversations)[from := Remember(history, incoming, reply)]
      ensures forall id :: id != from ==> History(id) == old(History(id))
    {
      var newHistory := history + [Turn(User, incoming), Turn(Assistant, reply)];
      RememberAlternates(history, incoming, reply);
      conversations := conversations[from := Recent(newHistory)];
    }

    /**
     * Handles one request. `complete` stands for the language model: it
     * maps the prompt to the completion outcome.
     */
    method HandleMessage(body: Option<string>, fromField: Option<string>, complete: seq<Turn> -> Completion)
      returns (prompt: seq<Turn>, response: string)
      requires Valid()
      modifies this
      ensures Valid()
      ensures prompt ==
        [Turn(System, systemPrompt)] + old(History(Sender(fromField))) + [Turn(User, Incoming(body))]
      ensures response == ResponseBody(ReplyFor(complete(prompt)))
      ensures complete(prompt) == Failed ==> conversations == old(conversations)
      ensures complete(prompt).Completed? ==>
        conversations == old(conversations)[Sender(fromField) :=
          Remember(old(History(Sender(fromField))), Incoming(body), ReplyFor(complete(prompt)))]
      ensures forall id :: id != Sender(fromField) ==> History(id) == old(History(id))
    {
      var incoming := Incoming(body);
      var from := Sender(fromField);
      var reply := DefaultReply;
      var history := History(from);
      prompt := [Turn(System, systemPrompt)] + history + [Turn(User, incoming)];
      var outcome := complete(prompt);
      match outcome {
        case Completed(content) =>
          reply := Pick(content, reply);
          Record(from, history, incoming, reply);
        case Failed =>
          reply := SnagReply;
      }
      response := ResponseBody(reply);
    }
  }
}
