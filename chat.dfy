/** The teacher chat `chatDocente` (script.js:221-244): a global log of
    `{role, content}` messages, kept apart from the roster. Sending appends the
    trimmed message and a canned answer that echoes it; clearing empties the log. */
module Chat {
  import opened Options
  import opened Text

  datatype Role = User | Assistant   // "user" | "assistant"

  datatype Message = Message(role: Role, content: string)

  const EchoPrefix := "Simulación IA: Recibido tu mensaje -> "

  /** The simulated answer to `text`. */
  function Reply(text: string): (r: Message)
    ensures r.role == Assistant && |r.content| == |EchoPrefix| + |text|
    ensures r.content[..|EchoPrefix|] == EchoPrefix && r.content[|EchoPrefix|..] == text
  {
    Message(Assistant, EchoPrefix + text)
  }

  /** The text an answer echoes; `None` for a user message or an answer of
      another shape. */
  function Echoed(m: Message): (r: Option<string>)
    ensures r.Some? ==> m == Reply(r.value)
  {
    if m.role == Assistant then
      match Between(m.content, EchoPrefix, "")
      case Some(text) =>
        assert m.content == EchoPrefix + text + "";
        assert EchoPrefix + text + "" == EchoPrefix + text;
        Some(text)
      case None => None
    else None
  }

  /** The answer gives back exactly the text it was sent. */
  lemma EchoedReply(text: string)
    ensures Echoed(Reply(text)) == Some(text)
  {
    assert EchoPrefix + text == EchoPrefix + text + "";
    BetweenOf(EchoPrefix, text, "");
  }

  /** What one successful send appends: the message, then its answer. */
  function Exchange(text: string): (r: seq<Message>)
    ensures |r| == 2 && r[0].role == User && r[0].content == text
    ensures r[1].role == Assistant && Echoed(r[1]) == Some(text)
  {
    EchoedReply(text);
    [Message(User, text), Reply(text)]
  }

  /** The shape of every log that sending and clearing build: user/answer
      pairs in which the user text is non-empty and already trimmed and the
      answer echoes it. */
  predicate Paired(log: seq<Message>)
    decreases |log|
  {
    log == []
    || (|log| >= 2 && log[0].role == User && Trimmed(log[0].content)
        && log[1] == Reply(log[0].content) && Paired(log[2..]))
  }

  /** One exchange for a trimmed, non-empty text is a paired log. */
  lemma ExchangePaired(text: string)
    requires Trimmed(text)
    ensures Paired(Exchange(text))
  {
    assert Exchange(text)[2..] == [];
  }

  /** Paired logs put one after the other stay paired. */
  lemma {:induction false} PairedAppend(a: seq<Message>, b: seq<Message>)
    requires Paired(a) && Paired(b)
    ensures Paired(a + b)
  {
    if a == [] {
      assert a + b == b;
    } else {
      PairedAppend(a[2..], b);
      assert (a + b)[2..] == a[2..] + b;
    }
  }

  /** In a paired log, message 2k is the k-th user message and message 2k+1
      is the answer echoing it. */
  lemma {:induction false} PairedAt(log: seq<Message>, k: nat)
    requires Paired(log) && 2 * k < |log|
    ensures 2 * k + 1 < |log|
    ensures log[2 * k].role == User && Trimmed(log[2 * k].content)
    ensures Echoed(log[2 * k + 1]) == Some(log[2 * k].content)
  {
    if k == 0 {
      EchoedReply(log[0].content);
    } else {
      PairedAt(log[2..], k - 1);
      assert log[2 * k] == log[2..][2 * (k - 1)];
      assert log[2 * k + 1] == log[2..][2 * (k - 1) + 1];
    }
  }

  /** Appending the exchange for a message that is not white space only keeps a log paired. */
  lemma SendKeepsPaired(log: seq<Message>, input: string)
    requires Trim(input) != []
    ensures Paired(log) ==> Paired(log + Exchange(Trim(input)))
  {
    var text := Trim(input);
    ExchangePaired(text);
    if Paired(log) {
      PairedAppend(log, Exchange(text));
    }
  }

  class ChatLog {
    /** `chatDocente`, oldest first. */
    var messages: seq<Message>

    /** The log before anything is stored. */
    constructor ()
      ensures messages == []
    {
      messages := [];
    }

    /** enviarMensajeDocente: white space only does nothing; otherwise the log
        grows by the trimmed message and then its echoed answer, and a paired
        log stays paired. */
    method Send(input: string) returns (sent: bool)
      modifies this
      ensures sent <==> !AllSpace(input)
      ensures !sent ==> messages == old(messages)
      ensures sent ==> messages == old(messages) + Exchange(Trim(input))
      ensures sent ==> Echoed(messages[|messages| - 1]) == Some(messages[|messages| - 2].content)
      ensures Paired(old(messages)) ==> Paired(messages)
    {
      var text := Trim(input);
      if text == [] {
        return false;
      }
      SendKeepsPaired(messages, input);
      EchoedReply(text);
      ghost var before := messages;
      messages := messages + [Message(User, text)];
      messages := messages + [Reply(text)];
      assert messages == before + Exchange(text);
      assert messages[|messages| - 1] == Reply(text);
      assert messages[|messages| - 2].content == text;
      sent := true;
    }

    /** limpiarChatDocente: the log becomes empty (which is paired). Only the
        chat object is in its frame, so the roster cannot change. */
    method Clear()
      modifies this
      ensures messages == [] && Paired(messages)
    {
      messages := [];
    }
  }
}
