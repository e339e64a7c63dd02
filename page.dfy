/**
 * The chat page's message handling: asking a question appends the user's
 * message, then either an error message or an assistant message whose
 * text is revealed word by word and finally marked as no longer
 * streaming. The HTTP round trip is a parameter of `HandleAsk`.
 */
module Page {
  import opened Wrappers
  import opened Text
  import Spans

  datatype Role = User | Assistant

  /** A chat message; an absent `isStreaming` is the same as `false`. */
  datatype Message = Message(role: Role, content: string, isStreaming: bool)

  const Greeting := Message(Assistant, "Hi! Ask me anything about your notes.", false)
  const ErrorText := "Error calling API."
  const NoAnswerText := "No answer returned."
  const ThinkOpen := "<think>"
  const ThinkClose := "</think>"

  /** The two fields of the `/ask` reply the page reads, `None` when absent. */
  datatype ApiData = ApiData(answer: Option<string>, error: Option<string>)

  /** The characters JavaScript's `String.prototype.trim` removes. */
  predicate JsIsSpace(c: char) {
    ('\t' <= c <= '\r') || c == ' ' || c == '\U{A0}' || c == '\U{1680}'
    || ('\U{2000}' <= c <= '\U{200A}') || c == '\U{2028}' || c == '\U{2029}'
    || c == '\U{202F}' || c == '\U{205F}' || c == '\U{3000}' || c == '\U{FEFF}'
  }

  /** `!query.trim()`. */
  predicate IsBlank(query: string) {
    Trim(query, JsIsSpace) == ""
  }

  /** A string field is truthy when present and non-empty. */
  predicate Truthy(v: Option<string>) {
    v.Some? && v.value != ""
  }

  /** `data.answer || data.error || "No answer returned."` */
  function PickText(data: ApiData): (text: string)
    ensures text != ""
    ensures Truthy(data.answer) ==> text == data.answer.value
    ensures !Truthy(data.answer) && Truthy(data.error) ==> text == data.error.value
    ensures !Truthy(data.answer) && !Truthy(data.error) ==> text == NoAnswerText
  {
    if Truthy(data.answer) then data.answer.value
    else if Truthy(data.error) then data.error.value
    else NoAnswerText
  }

  /** Every non-greedy `<think>...</think>` block removed, newlines included. */
  function StripThink(s: string): (r: string)
    ensures |r| <= |s|
  {
    Spans.RemoveSpans(s, ThinkOpen, ThinkClose, false)
  }

  /**
   * The text the page shows for a reply: the picked text with its think
   * blocks removed, less the whitespace at both of its ends.
   */
  function ResponseText(data: ApiData): (r: string)
    ensures |r| <= |PickText(data)|
    ensures exists i, j :: TrimmedTo(StripThink(PickText(data)), r, JsIsSpace, i, j)
    ensures r == [] || (!JsIsSpace(r[0]) && !JsIsSpace(r[|r| - 1]))
  {
    var s := StripThink(PickText(data));
    TrimFacts(s, JsIsSpace);
    Trim(s, JsIsSpace)
  }

  /** `body` may sit between `<think>` and `</think>`: no `</think>` starts inside it. */
  predicate IsThinkBody(body: string) {
    Spans.BodyBefore(body + ThinkClose, ThinkClose, |body|, false)
  }

  lemma PlainThinkBody(body: string)
    requires '<' !in body
    ensures IsThinkBody(body)
  {
    var t := body + ThinkClose;
    forall j | 0 <= j < |body| ensures !Spans.ClosesAt(t, ThinkClose, j) {
      assert t[j] == body[j];
    }
  }

  /** A think block after text where none starts is removed without a trace, even across lines. */
  lemma ThinkBlockRemoved(pre: string, body: string, post: string)
    requires Spans.NoOpenBefore(pre + ThinkOpen, ThinkOpen, |pre|) && IsThinkBody(body)
    ensures StripThink(pre + ThinkOpen + body + ThinkClose + post) == pre + StripThink(post)
  {
    Spans.RemoveSpansAfter(pre, body, post, ThinkOpen, ThinkClose, false);
  }

  /** A comparison before a think block is kept; the block is removed. */
  lemma ThinkAfterComparisonExample()
    ensures StripThink("if a < b <think>x</think>ok") == "if a < b ok"
  {
    var pre := "if a < b ";
    assert "if a < b <think>x</think>ok" == pre + ThinkOpen + "x" + ThinkClose + "ok";
    forall i | 0 <= i < |pre| ensures !StartsWith((pre + ThinkOpen)[i..], ThinkOpen) {
      assert (pre + ThinkOpen)[i] == pre[i];
      if i == 5 {
        assert (pre + ThinkOpen)[6] == pre[6] == ' ';
        DiffersAt((pre + ThinkOpen)[i..], ThinkOpen, 1);
      } else {
        assert pre[i] != '<' by {
          assert i == 0 || i == 1 || i == 2 || i == 3 || i == 4 || i == 6 || i == 7 || i == 8;
        }
        DiffersAt((pre + ThinkOpen)[i..], ThinkOpen, 0);
      }
    }
    PlainThinkBody("x");
    ThinkBlockRemoved(pre, "x", "ok");
    StripThinkPlain("ok");
  }

  /** Text without `<` holds no think block and is kept as it is. */
  lemma StripThinkPlain(s: string)
    requires '<' !in s
    ensures StripThink(s) == s
  {
    forall i | 0 <= i < |s| ensures !StartsWith(s[i..], ThinkOpen) {
      assert s[i..][0] == s[i];
    }
    Spans.RemoveSpansNoOpen(s, ThinkOpen, ThinkClose, false);
  }

  /** An answer that is nothing but a think block leaves the assistant with empty text. */
  lemma ThinkOnlyAnswer(body: string, error: Option<string>)
    requires IsThinkBody(body)
    ensures ResponseText(ApiData(Some(ThinkOpen + body + ThinkClose), error)) == ""
  {
    var a := ThinkOpen + body + ThinkClose;
    assert a == "" + ThinkOpen + body + ThinkClose + "";
    ThinkBlockRemoved("", body, "");
    assert StripThink("") == "";
  }

  /** A non-empty answer without `<` and without surrounding whitespace is shown exactly. */
  lemma PlainAnswerShown(a: string, error: Option<string>)
    requires a != "" && '<' !in a
    requires !JsIsSpace(a[0]) && !JsIsSpace(a[|a| - 1])
    ensures ResponseText(ApiData(Some(a), error)) == a
  {
    StripThinkPlain(a);
    var t := TrimStart(a, JsIsSpace);
    assert t == a;
    assert TrimEnd(t, JsIsSpace) == a;
  }

  /** With no usable answer, the error text is shown in the same way. */
  lemma ErrorShownWhenNoAnswer(data: ApiData)
    requires !Truthy(data.answer) && Truthy(data.error)
    ensures ResponseText(data) == Trim(StripThink(data.error.value), JsIsSpace)
  {
  }

  /** The words the page streams. */
  function Words(text: string): (words: seq<string>)
    ensures |words| >= 1
    ensures forall k :: 0 <= k < |words| ==> ' ' !in words[k]
  {
    Split(text, ' ')
  }

  /** After `i` words the streamed text is a prefix of the final text, and after all of them it is that text. */
  lemma StreamedPrefix(text: string, i: nat)
    requires 1 <= i <= |Words(text)|
    ensures StartsWith(text, Join(Words(text)[..i], " "))
    ensures i == |Words(text)| ==> Join(Words(text)[..i], " ") == text
  {
    var words := Words(text);
    JoinSplit(text, ' ');
    assert words[..|words|] == words;
    JoinPrefix(words, " ", i);
  }

  /** The message is the one streaming updates write into. */
  predicate IsStreamingReply(m: Message) {
    m.role == Assistant && m.isStreaming
  }

  /**
   * One streaming update: the last message gets `text` as its content when
   * it is a streaming assistant message; nothing else changes.
   */
  function WithLastContent(msgs: seq<Message>, text: string): (r: seq<Message>)
    ensures |r| == |msgs|
    ensures forall k :: 0 <= k < |msgs| - 1 ==> r[k] == msgs[k]
    ensures |msgs| > 0 ==>
      r[|msgs| - 1].role == msgs[|msgs| - 1].role && r[|msgs| - 1].isStreaming == msgs[|msgs| - 1].isStreaming
    ensures |msgs| > 0 && IsStreamingReply(msgs[|msgs| - 1]) ==> r[|msgs| - 1].content == text
    ensures |msgs| > 0 && !IsStreamingReply(msgs[|msgs| - 1]) ==> r == msgs
  {
    if |msgs| > 0 && IsStreamingReply(msgs[|msgs| - 1]) then
      msgs[..|msgs| - 1] + [msgs[|msgs| - 1].(content := text)]
    else msgs
  }

  /** Only the latest streaming update is visible. */
  lemma LaterUpdateWins(msgs: seq<Message>, a: string, b: string)
    ensures WithLastContent(WithLastContent(msgs, a), b) == WithLastContent(msgs, b)
  {
  }

  /** Writing the content the streaming message already has changes nothing. */
  lemma SameContentNoChange(msgs: seq<Message>)
    requires |msgs| > 0
    ensures WithLastContent(msgs, msgs[|msgs| - 1].content) == msgs
  {
    assert msgs == msgs[..|msgs| - 1] + [msgs[|msgs| - 1]];
  }

  /**
   * Finalisation: the last message stops streaming when it is an assistant
   * message; its role and content and every other message are unchanged.
   */
  function Finalised(msgs: seq<Message>): (r: seq<Message>)
    ensures |r| == |msgs|
    ensures forall k :: 0 <= k < |msgs| - 1 ==> r[k] == msgs[k]
    ensures |msgs| > 0 ==>
      r[|msgs| - 1].role == msgs[|msgs| - 1].role && r[|msgs| - 1].content == msgs[|msgs| - 1].content
    ensures |msgs| > 0 && msgs[|msgs| - 1].role == Assistant ==> !r[|msgs| - 1].isStreaming
    ensures |msgs| > 0 && msgs[|msgs| - 1].role == User ==> r == msgs
  {
    if |msgs| > 0 && msgs[|msgs| - 1].role == Assistant then
      msgs[..|msgs| - 1] + [msgs[|msgs| - 1].(isStreaming := false)]
    else msgs
  }

  /** Finalising twice is finalising once, and a finalised list ignores further streaming updates. */
  lemma FinalisedIsFinal(msgs: seq<Message>, text: string)
    ensures Finalised(Finalised(msgs)) == Finalised(msgs)
    ensures WithLastContent(Finalised(msgs), text) == Finalised(msgs)
  {
    if |msgs| > 0 && msgs[|msgs| - 1].role == Assistant {
      var f := Finalised(msgs);
      assert f == f[..|f| - 1] + [f[|f| - 1]];
    }
  }

  /** A fresh streaming reply that receives `text` and is finalised ends up as a plain assistant message. */
  lemma ReplyFinalised(msgs: seq<Message>, text: string)
    ensures Finalised(WithLastContent(msgs + [Message(Assistant, "", true)], text))
         == msgs + [Message(Assistant, text, false)]
  {
    var s := msgs + [Message(Assistant, "", true)];
    assert s[..|s| - 1] == msgs;
    var w := WithLastContent(s, text);
    assert w == msgs + [Message(Assistant, text, true)];
    assert w[..|w| - 1] == msgs;
  }

  lemma AppendTwo(msgs: seq<Message>, a: Message, b: Message)
    ensures msgs + [a] + [b] == msgs + [a, b]
  {
  }

  /** The page's chat state: the input box and the message list. */
  class ChatPage {
    var query: string
    var messages: seq<Message>

    /** An empty input and the greeting alone. */
    constructor ()
      ensures query == "" && messages == [Greeting]
    {
      query := "";
      messages := [Greeting];
    }

    /** `startNewChat`: back to the greeting alone; the input is kept. */
    method StartNewChat()
      modifies this
      ensures messages == [Greeting]
      ensures query == old(query)
    {
      messages := [Greeting];
    }

    /**
     * `handleAsk`. `fetch` is the outcome of posting a query to `/ask`:
     * the parsed reply, or `Failure` when the request or the parsing throws.
     * A blank input changes nothing. Otherwise the input is cleared, the
     * query is appended as a user message and followed by either the error
     * message or the assistant's reply, streamed word by word and then
     * finalised.
     */
    method HandleAsk(fetch: string -> Result<ApiData, string>)
      modifies this
      ensures IsBlank(old(query)) ==> query == old(query) && messages == old(messages)
      ensures !IsBlank(old(query)) ==> query == ""
      ensures !IsBlank(old(query)) && fetch(old(query)).Failure? ==>
        messages == old(messages) + [Message(User, old(query), false), Message(Assistant, ErrorText, false)]
      ensures !IsBlank(old(query)) && fetch(old(query)).Success? ==>
        messages == old(messages) + [Message(User, old(query), false),
                                     Message(Assistant, ResponseText(fetch(old(query)).value), false)]
    {
      if IsBlank(query) {
        return;
      }
      var q := query;
      ghost var before := messages;
      var userMessage := Message(User, q, false);
      messages := messages + [userMessage];
      query := "";
      var reply := fetch(q);
      ShowReply(reply);
      ghost var text := if reply.Failure? then ErrorText else ResponseText(reply.value);
      AppendTwo(before, userMessage, Message(Assistant, text, false));
    }

    /** What follows the user's message: the error message, or the streamed and finalised reply. */
    method ShowReply(reply: Result<ApiData, string>)
      modifies this
      ensures reply.Failure? ==> messages == old(messages) + [Message(Assistant, ErrorText, false)]
      ensures reply.Success? ==> messages == old(messages) + [Message(Assistant, ResponseText(reply.value), false)]
      ensures query == old(query)
    {
      if reply.Failure? {
        messages := messages + [Message(Assistant, ErrorText, false)];
        return;
      }
      var responseText := ResponseText(reply.value);
      ghost var before := messages;
      messages := messages + [Message(Assistant, "", true)];
      StreamWords(responseText);
      messages := Finalised(messages);
      ReplyFinalised(before, responseText);
    }

    /** The word-by-word reveal of `text` into the streaming reply at the end of the list. */
    method StreamWords(text: string)
      requires |messages| > 0 && IsStreamingReply(messages[|messages| - 1])
      requires messages[|messages| - 1].content == ""
      modifies this
      ensures messages == WithLastContent(old(messages), text)
      ensures query == old(query)
    {
      ghost var base := messages;
      SameContentNoChange(base);
      var currentText := "";
      var words := Words(text);
      for i := 0 to |words|
        invariant currentText == Join(words[..i], " ")
        invariant messages == WithLastContent(base, currentText)
        invariant query == old(query)
      {
        if i > 0 {
          JoinSnoc(words[..i], words[i], " ");
        }
        assert words[..i + 1] == words[..i] + [words[i]];
        currentText := currentText + (if i > 0 then " " else "") + words[i];
        LaterUpdateWins(base, Join(words[..i], " "), currentText);
        messages := WithLastContent(messages, currentText);
      }
      StreamedPrefix(text, |words|);
    }
  }
}
