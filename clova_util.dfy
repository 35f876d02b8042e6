/**
 The completion bridge of the clova-up bot: how a conversation becomes one
 prompt for the CLOVA Studio completion endpoint, and how the endpoint's reply
 becomes one assistant message.

 The HTTP call is a parameter (`api`), the system preamble `MAIN_PROMPT` an
 uninterpreted constant.
 */
module ClovaUtil {
  import opened PyStr

  /** The fixed instructional preamble put in front of every prompt; its text
      lives outside this model. */
  const MainPrompt: string

  /** The markers the source searches for in a completion. */
  const AnswerMarker: string := "답변:"
  const QuestionMarker: string := "질문:"

  /** The markers followed by a space, as they are written into a prompt. */
  const AnswerTag: string := "답변: "
  const QuestionTag: string := "질문: "

  /** The status code of a successful completion. */
  const SuccessCode: string := "20000"

  /** One chat turn: a dictionary with a "role" and a "content" entry. */
  datatype Message = Message(role: string, content: string)

  /** What the endpoint call produced: the decoded `status.code`,
      `status.message` and `result.text` fields, or the text of the exception
      raised on the way (transport error, HTTP error status, bad JSON or a
      missing field). */
  datatype Response =
    | Failed(cause: string)
    | Answered(code: string, message: string, text: string)

  /** The dictionary `clova_create` returns: `{"role", "content"}` or `{"error"}`. */
  datatype Completion = Success(reply: Message) | Failure(error: string)

  // ---------------------------------------------------------------------
  // Prompt flattening

  /** The text one turn contributes to the prompt; turns of any role other
      than user or assistant contribute nothing. */
  function Render(m: Message): string {
    if m.role == "user" then QuestionTag + m.content + "\n"
    else if m.role == "assistant" then AnswerTag + m.content + "\n"
    else ""
  }

  /** The turns of a conversation rendered one after another, oldest first. */
  function Turns(messages: seq<Message>): string {
    if messages == [] then "" else Render(messages[0]) + Turns(messages[1..])
  }

  /** The request text: the preamble followed by the rendered turns. */
  function Prompt(messages: seq<Message>): (p: string)
    ensures MainPrompt <= p
    ensures p[|MainPrompt|..] == Turns(messages)
  {
    MainPrompt + Turns(messages)
  }

  /** Flattening distributes over concatenation of conversations: it keeps
      the order of the turns and renders each one independently. */
  lemma {:induction false} TurnsConcat(a: seq<Message>, b: seq<Message>)
    ensures Turns(a + b) == Turns(a) + Turns(b)
    decreases |a|
  {
    if a == [] {
      assert a + b == b;
    } else {
      assert (a + b)[0] == a[0];
      assert (a + b)[1..] == a[1..] + b;
      TurnsConcat(a[1..], b);
    }
  }

  /** The rendering of turn `i` sits in the flattened text right after the
      renderings of all earlier turns and before those of all later ones. */
  lemma TurnsAt(messages: seq<Message>, i: int)
    requires 0 <= i < |messages|
    ensures Turns(messages) == Turns(messages[..i]) + Render(messages[i]) + Turns(messages[i + 1..])
  {
    assert messages == messages[..i] + ([messages[i]] + messages[i + 1..]);
    TurnsAround(messages[..i], messages[i], messages[i + 1..]);
  }

  /** A turn whose role is neither user nor assistant leaves the flattened
      text as if it were not there. */
  lemma TurnsSkipsOtherRoles(before: seq<Message>, m: Message, after: seq<Message>)
    requires m.role != "user" && m.role != "assistant"
    ensures Turns(before + ([m] + after)) == Turns(before + after)
  {
    TurnsAround(before, m, after);
    TurnsConcat(before, after);
    assert Turns(before) + [] == Turns(before);
  }

  /** Flattening one more turn appends its rendering. */
  lemma TurnsSnoc(before: seq<Message>, m: Message)
    ensures Turns(before + [m]) == Turns(before) + Render(m)
  {
    TurnsConcat(before, [m]);
    assert [m][1..] == [];
  }

  /** Flattening a list split around one turn puts that turn's rendering between the two halves. */
  lemma TurnsAround(before: seq<Message>, m: Message, after: seq<Message>)
    ensures Turns(before + ([m] + after)) == Turns(before) + Render(m) + Turns(after)
  {
    var rest := [m] + after;
    TurnsConcat(before, rest);
    assert rest[0] == m && rest[1..] == after;
    assert Turns(rest) == Render(m) + Turns(after);
  }

  // ---------------------------------------------------------------------
  // Answer extraction

  /** `extract_first_answer`: the first answer of a completion that may go on
      with further question/answer turns. */
  function ExtractFirstAnswer(s: string): string {
    var answerPart := if Contains(s, AnswerMarker) then Strip(Split(s, AnswerMarker)[1]) else s;
    if Contains(answerPart, QuestionMarker) then Strip(Split(answerPart, QuestionMarker)[0])
    else answerPart
  }

  /** The extracted answer is a piece of the input that holds neither marker;
      it is the input itself, untrimmed, when the input holds no marker, and
      it has no surrounding whitespace when the input holds one. */
  lemma ExtractResult(s: string)
    ensures var r := ExtractFirstAnswer(s);
      && Contains(s, r)
      && !Contains(r, AnswerMarker)
      && !Contains(r, QuestionMarker)
      && (!Contains(s, AnswerMarker) && !Contains(s, QuestionMarker) ==> r == s)
      && (Contains(s, AnswerMarker) || Contains(s, QuestionMarker) ==> NoEdgeSpace(r))
  {
    var answerPart := if Contains(s, AnswerMarker) then Strip(Split(s, AnswerMarker)[1]) else s;
    if Contains(s, AnswerMarker) {
      var segment := Split(s, AnswerMarker)[1];
      SplitPartInfix(s, AnswerMarker, 1);
      SplitPartFree(s, AnswerMarker, 1);
      ContainsTrans(s, segment, answerPart);
      ContainsTrans(segment, answerPart, AnswerMarker);
    } else {
      OccursAtWhole(s);
    }
    if Contains(answerPart, QuestionMarker) {
      var head := Split(answerPart, QuestionMarker)[0];
      var r := Strip(head);
      SplitPartInfix(answerPart, QuestionMarker, 0);
      SplitPartFree(answerPart, QuestionMarker, 0);
      ContainsTrans(answerPart, head, r);
      ContainsTrans(s, answerPart, r);
      ContainsTrans(answerPart, r, AnswerMarker);
      ContainsTrans(head, r, QuestionMarker);
    }
  }

  /** When the answer marker occurs, first at `i` and next at `j` (or never
      again, `j` being the end), the answer is the stripped segment between
      the two, cut before its first question marker and stripped again. */
  lemma ExtractAnswerSegment(s: string, i: int, j: int)
    requires FirstAt(s, AnswerMarker, i)
    requires i + |AnswerMarker| <= j <= |s|
    requires OccursAt(s, AnswerMarker, j) || j == |s|
    requires forall k :: i + |AnswerMarker| <= k < j ==> !OccursAt(s, AnswerMarker, k)
    ensures var t := Strip(s[i + |AnswerMarker|..j]);
      && (!Contains(t, QuestionMarker) ==> ExtractFirstAnswer(s) == t)
      && (forall q :: FirstAt(t, QuestionMarker, q) ==> ExtractFirstAnswer(s) == Strip(t[..q]))
  {
    SplitSecond(s, AnswerMarker, i, j);
    var t := Strip(s[i + |AnswerMarker|..j]);
    forall q | FirstAt(t, QuestionMarker, q) ensures ExtractFirstAnswer(s) == Strip(t[..q]) {
      SplitHead(t, QuestionMarker, q);
    }
  }

  /** Without an answer marker, the answer is the stripped text before the
      first question marker. */
  lemma ExtractQuestionOnly(s: string, q: int)
    requires !Contains(s, AnswerMarker) && FirstAt(s, QuestionMarker, q)
    ensures ExtractFirstAnswer(s) == Strip(s[..q])
  {
    SplitHead(s, QuestionMarker, q);
  }

  /** `"답변: X\n질문: Y"` gives `"X"`, whatever follows the question marker. */
  lemma ExtractAnswerExample(x: string, y: string)
    requires !Contains(x, AnswerMarker) && !Contains(x, QuestionMarker) && NoEdgeSpace(x)
    ensures ExtractFirstAnswer(AnswerTag + x + "\n" + QuestionTag + y) == x
  {
    AnswerExampleSegment(x, y);
    AnswerExampleCut(x, Split(y, AnswerMarker)[0]);
  }

  /** In `"답변: X\n질문: Y"` the answer marker occurs, and the piece after its
      first occurrence runs on to the first piece of `Y`. */
  lemma AnswerExampleSegment(x: string, y: string)
    requires !Contains(x, AnswerMarker)
    ensures var s := AnswerTag + x + "\n" + QuestionTag + y;
      && Contains(s, AnswerMarker)
      && Split(s, AnswerMarker)[1]
         == [' '] + x + ['\n'] + QuestionMarker + [' '] + Split(y, AnswerMarker)[0]
  {
    var p := [' '] + x + ['\n'] + QuestionMarker;
    AnswerExampleShape(x, y);
    SplitLeading(AnswerMarker, p + [' '] + y);
    AnswerLineFree(x);
    MarkerFacts();
    SplitHeadAround(p, ' ', y, AnswerMarker);
  }

  /** `"답변: X\n질문: Y"` is the answer marker followed by `" X\n질문: Y"`. */
  lemma AnswerExampleShape(x: string, y: string)
    ensures AnswerTag + x + "\n" + QuestionTag + y
      == AnswerMarker + (([' '] + x + ['\n'] + QuestionMarker) + [' '] + y)
  {
    var t := [' '] + x + ['\n'];
    TagFacts();
    Regroup(AnswerMarker, [' '], x);
    Regroup(AnswerMarker, [' '] + x, ['\n']);
    Regroup(AnswerMarker + t, QuestionTag, y);
    Regroup(AnswerMarker, t, QuestionTag + y);
    Regroup(t + QuestionMarker, [' '], y);
    Regroup(t, QuestionMarker, [' '] + y);
    Regroup(QuestionMarker, [' '], y);
  }

  /** `" X\n질문:"` holds no answer marker when `X` holds none. */
  lemma AnswerLineFree(x: string)
    requires !Contains(x, AnswerMarker)
    ensures !Contains([' '] + x + ['\n'] + QuestionMarker, AnswerMarker)
  {
    MarkerFacts();
    assert [] + [' '] + x == [' '] + x;
    ContainsAround([], ' ', x, AnswerMarker);
    ContainsAround([' '] + x, '\n', QuestionMarker, AnswerMarker);
  }

  /** Stripping `" X\n질문: Z"` leaves the question marker in, and the piece
      before it, stripped again, is `X`. */
  lemma AnswerExampleCut(x: string, z: string)
    requires !Contains(x, QuestionMarker) && NoEdgeSpace(x)
    ensures var t := Strip([' '] + x + ['\n'] + QuestionMarker + [' '] + z);
      Contains(t, QuestionMarker) && Strip(Split(t, QuestionMarker)[0]) == x
  {
    var h := if x == [] then [] else x + ['\n'];
    AnswerExampleStrip(x, z, h);
    CutAtMarker(x, h, RStrip([' '] + z));
  }

  /** In `h + "질문:" + r`, where `h` is empty or a line holding no question
      marker, the piece before the first question marker, stripped, is the
      line. */
  lemma CutAtMarker(x: string, h: string, r: string)
    requires !Contains(x, QuestionMarker) && NoEdgeSpace(x)
    requires h == (if x == [] then [] else x + ['\n'])
    ensures Contains(h + QuestionMarker + r, QuestionMarker)
    ensures Strip(Split(h + QuestionMarker + r, QuestionMarker)[0]) == x
  {
    var t := h + QuestionMarker + r;
    InfixOfConcat(h, QuestionMarker, r);
    SplitLeading(QuestionMarker, r);
    if x == [] {
      assert [] + QuestionMarker == QuestionMarker;
      StripPadded([], [], []);
      assert [] + [] + [] == "";
    } else {
      Regroup(x + ['\n'], QuestionMarker, r);
      MarkerFacts();
      SplitHeadAround(x, '\n', QuestionMarker + r, QuestionMarker);
      assert x + ['\n'] + [] == x + ['\n'];
      StripNewline(x, x + ['\n']);
    }
  }

  /** Stripping that segment drops the leading space, and the newline too
      when `x` is empty. */
  lemma AnswerExampleStrip(x: string, z: string, h: string)
    requires NoEdgeSpace(x) && h == (if x == [] then [] else x + ['\n'])
    ensures Strip([' '] + x + ['\n'] + QuestionMarker + [' '] + z)
      == h + QuestionMarker + RStrip([' '] + z)
  {
    var w: string := if x == [] then [' ', '\n'] else [' '];
    var p := h + QuestionMarker;
    assert AllSpace(w) && p != [] && !IsSpace(p[0]) && !IsSpace(p[|p| - 1]) by {
      MarkerFacts();
      assert p[|p| - 1] == ':';
      assert x != [] ==> p[0] == x[0];
      assert x == [] ==> p[0] == '질';
    }
    SegmentRegroup(x, z, h, w);
    StripAround(w, p, [' '] + z);
  }

  /** The segment regrouped around its whitespace prefix `w`. */
  lemma SegmentRegroup(x: string, z: string, h: string, w: string)
    requires h == (if x == [] then [] else x + ['\n'])
    requires w == (if x == [] then [' ', '\n'] else [' '])
    ensures [' '] + x + ['\n'] + QuestionMarker + [' '] + z
      == w + ((h + QuestionMarker) + ([' '] + z))
  {
    var tail := QuestionMarker + ([' '] + z);
    var head := [' '] + x + ['\n'];
    Regroup(head + QuestionMarker, [' '], z);
    Regroup(head, QuestionMarker, [' '] + z);
    Regroup(h, QuestionMarker, [' '] + z);
    Regroup(w, h, tail);
    if x == [] {
      assert head == w && h == [];
      assert [] + tail == tail;
    } else {
      Regroup([' '], x, ['\n']);
    }
  }

  /** Stripping `w + p + t`, with `w` all whitespace and `p` non-space at both
      ends, keeps `p` and right-strips `t`. */
  lemma StripAround(w: string, p: string, t: string)
    requires AllSpace(w) && p != [] && !IsSpace(p[0]) && !IsSpace(p[|p| - 1])
    ensures Strip(w + (p + t)) == p + RStrip(t)
  {
    LStripOf(w, p + t);
    RStripKeeps(p, t);
  }

  /** Stripping a line without edge whitespace together with its newline
      gives the line. */
  lemma StripNewline(x: string, w: string)
    requires NoEdgeSpace(x) && w == x + ['\n']
    ensures Strip(w) == x
  {
    StripPadded([], x, ['\n']);
    assert [] + x + ['\n'] == w;
  }

  /** `"X\n질문: Y"` gives `"X"` when no answer marker occurs. */
  lemma ExtractQuestionExample(x: string, y: string)
    requires !Contains(x, AnswerMarker) && !Contains(x, QuestionMarker) && NoEdgeSpace(x)
    requires !Contains(y, AnswerMarker)
    ensures ExtractFirstAnswer(x + "\n" + QuestionTag + y) == x
  {
    QuestionExampleNoAnswer(x, y);
    QuestionExampleCut(x, y);
    StripNewline(x, x + ['\n']);
  }

  /** `"X\n질문: Y"` holds no answer marker when neither `X` nor `Y` does. */
  lemma QuestionExampleNoAnswer(x: string, y: string)
    requires !Contains(x, AnswerMarker) && !Contains(y, AnswerMarker)
    ensures !Contains(x + "\n" + QuestionTag + y, AnswerMarker)
  {
    var q := QuestionMarker + [' '] + y;
    TagFacts();
    Regroup(x + ['\n'], QuestionTag, y);
    MarkerFacts();
    ContainsAround(QuestionMarker, ' ', y, AnswerMarker);
    ContainsAround(x, '\n', q, AnswerMarker);
  }

  /** In `"X\n질문: Y"`, with `X` free of the question marker, the piece
      before the first question marker is `X` and its newline. */
  lemma QuestionExampleCut(x: string, y: string)
    requires !Contains(x, QuestionMarker)
    ensures var s := x + "\n" + QuestionTag + y;
      Contains(s, QuestionMarker) && Split(s, QuestionMarker)[0] == x + ['\n']
  {
    var q := QuestionMarker + ([' '] + y);
    TagFacts();
    Regroup(x + ['\n'], QuestionTag, y);
    Regroup(QuestionMarker, [' '], y);
    MarkerFacts();
    SplitHeadAround(x, '\n', q, QuestionMarker);
    SplitLeading(QuestionMarker, [' '] + y);
    assert x + ['\n'] + [] == x + ['\n'];
  }

  /** The tags are the markers followed by a space. */
  lemma TagFacts()
    ensures AnswerTag == AnswerMarker + [' '] && QuestionTag == QuestionMarker + [' ']
    ensures "\n" == ['\n']
  {
  }

  /** The facts about the literal markers the examples rely on. */
  lemma MarkerFacts()
    ensures '\n' !in AnswerMarker && ' ' !in AnswerMarker
    ensures '\n' !in QuestionMarker && ' ' !in QuestionMarker
    ensures !Contains([], AnswerMarker) && !Contains([], QuestionMarker)
    ensures !Contains(QuestionMarker, AnswerMarker) && !Contains(AnswerMarker, QuestionMarker)
    ensures IsSpace('\n') && IsSpace(' ')
    ensures AllSpace(['\n']) && AllSpace([' ', '\n'])
  {
    assert QuestionMarker[0..3][0] != AnswerMarker[0];
    assert AnswerMarker[0..3][0] != QuestionMarker[0];
    assert FindFrom(QuestionMarker, AnswerMarker, 1) == -1;
    assert FindFrom(AnswerMarker, QuestionMarker, 1) == -1;
  }

  // ---------------------------------------------------------------------
  // Post-processing of the endpoint's reply

  /** Lines 97-110 of `clova_create`: a failed call or a status code other
      than "20000" becomes an error; otherwise the echoed prompt is dropped,
      the text stripped, one leading answer tag dropped, and the first answer
      extracted. */
  function PostProcess(prompt: string, response: Response): (c: Completion)
    ensures response.Failed? ==> c == Failure(response.cause)
    ensures response.Answered? && response.code != SuccessCode ==> c == Failure(response.message)
    ensures response.Answered? && response.code == SuccessCode ==>
      c.Success? && c.reply.role == "assistant"
  {
    match response
    case Failed(cause) => Failure(cause)
    case Answered(code, message, text) =>
      if code == SuccessCode then
        var unechoed := RemovePrefix(text, prompt);
        var untagged := RemovePrefix(Strip(unechoed), AnswerTag);
        Success(Message("assistant", ExtractFirstAnswer(untagged)))
      else
        Failure(message)
  }

  /** A successful reply is a piece of the completion text and holds no
      question or answer marker. */
  lemma PostProcessReply(prompt: string, response: Response)
    requires response.Answered? && response.code == SuccessCode
    ensures var c := PostProcess(prompt, response);
      && Contains(response.text, c.reply.content)
      && !Contains(c.reply.content, AnswerMarker)
      && !Contains(c.reply.content, QuestionMarker)
  {
    var text := response.text;
    var unechoed := RemovePrefix(text, prompt);
    var stripped := Strip(unechoed);
    var untagged := RemovePrefix(stripped, AnswerTag);
    RemovePrefixInfix(text, prompt);
    RemovePrefixInfix(stripped, AnswerTag);
    ExtractResult(untagged);
    var r := ExtractFirstAnswer(untagged);
    ContainsTrans(text, unechoed, stripped);
    ContainsTrans(text, stripped, untagged);
    ContainsTrans(text, untagged, r);
  }

  /** A reply that echoes the prompt is post-processed as if the endpoint had
      sent only what follows the echo. */
  lemma PostProcessEcho(prompt: string, code: string, message: string, u: string)
    ensures PostProcess(prompt, Answered(code, message, prompt + u))
      == PostProcess([], Answered(code, message, u))
  {
    RemovePrefixOf(prompt, u);
    RemovePrefixOf([], u);
    assert [] + u == u;
  }

  /** A reply that does not start with the prompt is left whole: it is
      post-processed as if there were no prompt to drop. */
  lemma PostProcessNoEcho(prompt: string, code: string, message: string, text: string)
    requires !(prompt <= text)
    ensures PostProcess(prompt, Answered(code, message, text))
      == PostProcess([], Answered(code, message, text))
  {
    RemovePrefixOf([], text);
    assert [] + text == text;
  }

  /** After the echo is dropped and the text stripped, one leading answer tag
      is dropped and the rest goes to extraction, even when it begins with
      the tag again. */
  lemma PostProcessUntags(prompt: string, message: string, u: string, v: string)
    requires Strip(RemovePrefix(u, prompt)) == AnswerTag + v
    ensures PostProcess(prompt, Answered(SuccessCode, message, u))
      == Success(Message("assistant", ExtractFirstAnswer(v)))
  {
    RemovePrefixOf(AnswerTag, v);
  }

  /** The success scenario: an endpoint that echoes the prompt and then
      answers `"답변: " + x` yields `x`. */
  lemma PostProcessExample(prompt: string, message: string, x: string)
    requires !Contains(x, AnswerMarker) && !Contains(x, QuestionMarker) && NoEdgeSpace(x)
    ensures PostProcess(prompt, Answered(SuccessCode, message, prompt + AnswerTag + x + "\n"))
      == Success(Message("assistant", x))
  {
    var u := EchoedReplyUntagged(prompt, x, prompt + AnswerTag + x + "\n");
    if x == [] {
      ExtractBareMarker();
    } else {
      ExtractResult(x);
    }
  }

  /** What is left of `prompt + "답변: " + x + "\n"` once the echo, the
      surrounding whitespace and the answer tag are dropped: `x`, or the bare
      marker `"답변:"` when `x` is empty (the tag's space went with the
      strip). */
  lemma EchoedReplyUntagged(prompt: string, x: string, text: string) returns (u: string)
    requires NoEdgeSpace(x) && text == prompt + AnswerTag + x + "\n"
    ensures RemovePrefix(Strip(RemovePrefix(text, prompt)), AnswerTag) == u
    ensures x == [] ==> u == AnswerMarker
    ensures x != [] ==> u == x
  {
    var unechoed := AnswerTag + x + "\n";
    assert text == prompt + unechoed;
    RemovePrefixOf(prompt, unechoed);
    if x == [] {
      StripBareTag(unechoed);
      u := AnswerMarker;
    } else {
      StripTaggedLine(x, unechoed);
      RemovePrefixOf(AnswerTag, x);
      u := x;
    }
  }

  /** An echo-free reply `"답변: \n"` strips and untags to the bare marker `"답변:"`. */
  lemma StripBareTag(unechoed: string)
    requires unechoed == AnswerTag + [] + "\n"
    ensures RemovePrefix(Strip(unechoed), AnswerTag) == AnswerMarker
  {
    MarkerFacts();
    assert unechoed == [] + AnswerMarker + [' ', '\n'];
    StripPadded([], AnswerMarker, [' ', '\n']);
  }

  /** An echo-free reply `"답변: " + x + "\n"` with `x` non-empty and edge-stripped strips to the tagged line. */
  lemma StripTaggedLine(x: string, unechoed: string)
    requires NoEdgeSpace(x) && x != [] && unechoed == AnswerTag + x + "\n"
    ensures Strip(unechoed) == AnswerTag + x
  {
    MarkerFacts();
    var line := AnswerTag + x;
    assert unechoed == [] + line + ['\n'];
    assert line[0] == '답' && line[|line| - 1] == x[|x| - 1];
    StripPadded([], line, ['\n']);
  }

  /** The bare marker has an empty answer. */
  lemma ExtractBareMarker()
    ensures ExtractFirstAnswer(AnswerMarker) == []
  {
    MarkerFacts();
    assert AnswerMarker == AnswerMarker + [];
    SplitLeading(AnswerMarker, []);
    SplitNone([], AnswerMarker);
    StripPadded([], [], []);
    assert [] + [] + [] == "";
  }

  /** The reply never echoes the prompt: once the conversation has a user or
      assistant turn, the prompt holds a marker and a reply holds none. */
  lemma ReplyNeverEchoesPrompt(messages: seq<Message>, i: int, response: Response)
    requires 0 <= i < |messages|
    requires messages[i].role == "user" || messages[i].role == "assistant"
    ensures var c := PostProcess(Prompt(messages), response);
      c.Success? ==> !Contains(c.reply.content, Prompt(messages))
  {
    var p := Prompt(messages);
    PromptHoldsMarker(messages, i);
    if response.Answered? && response.code == SuccessCode {
      PostProcessReply(p, response);
      var content := PostProcess(p, response).reply.content;
      ContainsTrans(content, p, QuestionMarker);
      ContainsTrans(content, p, AnswerMarker);
    }
  }

  /** A user turn puts the question marker into the prompt, an assistant turn
      the answer marker. */
  lemma PromptHoldsMarker(messages: seq<Message>, i: int)
    requires 0 <= i < |messages|
    ensures messages[i].role == "user" ==> Contains(Prompt(messages), QuestionMarker)
    ensures messages[i].role == "assistant" ==> Contains(Prompt(messages), AnswerMarker)
  {
    var m := messages[i];
    var before, after := Turns(messages[..i]), Turns(messages[i + 1..]);
    TurnsAt(messages, i);
    InfixOfConcat(before, Render(m), after);
    SuffixOfConcat(MainPrompt, Turns(messages));
    ContainsTrans(Prompt(messages), Turns(messages), Render(m));
    RenderHoldsMarker(m);
    ContainsTrans(Prompt(messages), Render(m), QuestionMarker);
    ContainsTrans(Prompt(messages), Render(m), AnswerMarker);
  }

  /** The rendering of a user turn starts with the question marker, that of an
      assistant turn with the answer marker. */
  lemma RenderHoldsMarker(m: Message)
    ensures m.role == "user" ==> QuestionMarker <= Render(m) && Contains(Render(m), QuestionMarker)
    ensures m.role == "assistant" ==> AnswerMarker <= Render(m) && Contains(Render(m), AnswerMarker)
  {
    if m.role == "user" {
      assert Render(m)[0..3] == QuestionMarker;
      ContainsAt(Render(m), QuestionMarker, 0);
    } else if m.role == "assistant" {
      assert Render(m)[0..3] == AnswerMarker;
      ContainsAt(Render(m), AnswerMarker, 0);
    }
  }

  // ---------------------------------------------------------------------
  // The bridge

  /** `clova_create`: flatten the conversation into the request text, call
      the endpoint once, and turn its reply into a completion. */
  method ClovaCreate(messages: seq<Message>, api: string -> Response) returns (result: Completion)
    ensures result == PostProcess(Prompt(messages), api(Prompt(messages)))
  {
    var text := "";
    for i := 0 to |messages|
      invariant text == Turns(messages[..i])
    {
      var m := messages[i];
      if m.role == "user" {
        text := text + (QuestionTag + m.content + "\n");
      } else if m.role == "assistant" {
        text := text + (AnswerTag + m.content + "\n");
      }
      assert messages[..i + 1] == messages[..i] + [m];
      TurnsSnoc(messages[..i], m);
    }
    assert messages[..|messages|] == messages;
    text := MainPrompt + text;
    assert text == Prompt(messages);

    var response := api(text);
    match response {
      case Failed(cause) =>
        result := Failure(cause);
      case Answered(code, message, output) =>
        if code == SuccessCode {
          var out := output;
          if text <= out {
            out := out[|text|..];
          }
          assert out == RemovePrefix(output, text);
          out := Strip(out);
          ghost var stripped := out;
          if AnswerTag <= out {
            out := out[|AnswerTag|..];
          }
          assert out == RemovePrefix(stripped, AnswerTag);
          out := ExtractFirstAnswer(out);
          result := Success(Message("assistant", out));
        } else {
          result := Failure(message);
        }
    }
  }
}
