/**
 * The decision and assembly logic of `ask_question` (main.py): the rejection
 * of a request without a chat id, the filtering of the retrieved chunks by
 * score, the context handed to the language model, the fixed refusal when no
 * context is left, the formatting of the model's answer, the stored messages,
 * the chat title set on a first question, and the `used_pdf_context` flag.
 *
 * The vector index, the language model and the database are not modelled:
 * the result of the similarity search (or its absence) and the user's chats
 * are inputs, the model is a function parameter, and the writes to the
 * database are returned, in order, as a sequence of effects.
 */
module Ask {
  import opened Wrappers
  import opened PyStr
  import opened Http
  import opened Seqs
  import Formatter

  /** `MAX_CONTEXT_CHARS` of app/config.py. */
  const MAX_CONTEXT_CHARS: nat := 8000

  /** Length of the title taken from a chat's first question. */
  const TITLE_CHARS: nat := 40

  /** The answer given, without calling the model, when no context is left:
      "Sorry, the requested information is not available in the provided PDF.",
      written in pieces so that its characters can be read one by one in proofs. */
  const REFUSAL: string := "Sorry, the requested" + " information is not" + " available in the" + " provided PDF."

  /** One `(doc, score)` pair returned by the similarity search. */
  datatype SearchHit = SearchHit(text: string, score: real)

  /** One row of the user's chats: its id and its title (`None` for a missing or null title). */
  datatype Chat = Chat(id: string, title: Option<string>)

  datatype Role = User | Assistant

  /** The writes `ask_question` makes to the database, in order. */
  datatype AskEffect =
    | InsertMessage(userId: string, chatId: string, role: Role, content: string)
    | SetChatTitle(chatId: string, title: string)

  /** The JSON body of a successful reply. */
  datatype AskReply = AskReply(answer: string, usedPdfContext: bool)

  /** The arguments of the one call to the language model, when it is made. */
  datatype LlmCall = LlmCall(question: string, context: string)

  /** Everything one request does: its reply, its writes and its model call. */
  datatype AskTrace = AskTrace(reply: Result<AskReply, HttpError>, effects: seq<AskEffect>, llmCall: Option<LlmCall>)

  // ---------------------------------------------------------------------
  // Filtering the retrieved chunks
  // ---------------------------------------------------------------------

  /** `filtered_results`: the hits whose score reaches the threshold, in order. */
  function Kept(hits: seq<SearchHit>, threshold: real): seq<SearchHit>
  {
    if hits == [] then []
    else
      var last := hits[|hits| - 1];
      Kept(hits[..|hits| - 1], threshold) + (if last.score >= threshold then [last] else [])
  }

  /** The loop of `ask_question` that builds `filtered_results`. */
  method FilterResults(hits: seq<SearchHit>, threshold: real) returns (filtered: seq<SearchHit>)
    ensures filtered == Kept(hits, threshold)
  {
    filtered := [];
    for i := 0 to |hits|
      invariant filtered == Kept(hits[..i], threshold)
    {
      PrefixSnoc(hits, i);
      KeptSnoc(hits[..i], hits[i], threshold);
      if hits[i].score >= threshold {
        filtered := filtered + [hits[i]];
      }
    }
    assert hits[..|hits|] == hits;
  }

  /** One more hit is kept after the others when its score reaches the threshold. */
  lemma KeptSnoc(hits: seq<SearchHit>, h: SearchHit, threshold: real)
    ensures Kept(hits + [h], threshold) == Kept(hits, threshold) + (if h.score >= threshold then [h] else [])
  {
    assert (hits + [h])[..|hits|] == hits;
  }

  /** A hit is kept exactly when it was retrieved and its score reaches the threshold. */
  lemma {:induction false} KeptMembership(hits: seq<SearchHit>, threshold: real)
    ensures |Kept(hits, threshold)| <= |hits|
    ensures forall h :: h in Kept(hits, threshold) <==> h in hits && h.score >= threshold
    decreases |hits|
  {
    if hits != [] {
      var init := hits[..|hits| - 1];
      KeptMembership(init, threshold);
      assert hits == init + [hits[|hits| - 1]];
    }
  }

  /** When no hit reaches the threshold, nothing is kept. */
  lemma {:induction false} NoneReachThreshold(hits: seq<SearchHit>, threshold: real)
    requires forall i :: 0 <= i < |hits| ==> hits[i].score < threshold
    ensures Kept(hits, threshold) == []
    decreases |hits|
  {
    if hits != [] {
      NoneReachThreshold(hits[..|hits| - 1], threshold);
    }
  }

  /** Filtering is done hit by hit: the hits of two result lists are filtered independently, order kept. */
  lemma {:induction false} KeptAppend(a: seq<SearchHit>, b: seq<SearchHit>, threshold: real)
    ensures Kept(a + b, threshold) == Kept(a, threshold) + Kept(b, threshold)
    decreases |b|
  {
    if b == [] {
      assert a + b == a;
    } else {
      KeptAppend(a, b[..|b| - 1], threshold);
      assert (a + b)[..|a + b| - 1] == a + b[..|b| - 1];
    }
  }

  /** Every dropped hit scores strictly below every kept hit: the filter keeps
      the highest scores, whichever way a score is read. */
  lemma DroppedScoreBelowKept(hits: seq<SearchHit>, threshold: real)
    ensures forall d, k :: d in hits && d !in Kept(hits, threshold) && k in Kept(hits, threshold) ==> d.score < k.score
  {
    KeptMembership(hits, threshold);
  }

  // ---------------------------------------------------------------------
  // The context handed to the model
  // ---------------------------------------------------------------------

  /** `[doc.page_content for doc in filtered_results]`. */
  function Texts(hits: seq<SearchHit>): (texts: seq<string>)
    ensures |texts| == |hits|
    ensures forall i :: 0 <= i < |hits| ==> texts[i] == hits[i].text
  {
    seq(|hits|, i requires 0 <= i < |hits| => hits[i].text)
  }

  /** `context_text` after the retrieval step: empty without an index or without
      a kept hit, otherwise the kept chunks separated by blank lines, cut to
      `MAX_CONTEXT_CHARS` characters. */
  function ContextFor(search: Option<seq<SearchHit>>, threshold: real): string
  {
    match search
    case None => ""
    case Some(hits) =>
      var kept := Kept(hits, threshold);
      if kept == [] then "" else Take(Join(Texts(kept), "\n\n"), MAX_CONTEXT_CHARS)
  }

  /** The retrieval step of `ask_question`. */
  method BuildContext(search: Option<seq<SearchHit>>, threshold: real) returns (context: string)
    ensures context == ContextFor(search, threshold)
  {
    context := "";
    if search.Some? {
      var filtered := FilterResults(search.value, threshold);
      if filtered != [] {
        context := Join(Texts(filtered), "\n\n");
        context := Take(context, MAX_CONTEXT_CHARS);
      }
    }
  }

  /** The context is at most `MAX_CONTEXT_CHARS` long and is a prefix of the kept
      chunks joined by blank lines; it is empty when nothing is kept. */
  lemma ContextBounded(search: Option<seq<SearchHit>>, threshold: real)
    ensures |ContextFor(search, threshold)| <= MAX_CONTEXT_CHARS
    ensures search.Some? ==>
              var joined := Join(Texts(Kept(search.value, threshold)), "\n\n");
              ContextFor(search, threshold) == joined[..|ContextFor(search, threshold)|]
    ensures search.None? || Kept(search.value, threshold) == [] ==> ContextFor(search, threshold) == ""
    ensures search.Some? && |Join(Texts(Kept(search.value, threshold)), "\n\n")| > MAX_CONTEXT_CHARS ==>
              |ContextFor(search, threshold)| == MAX_CONTEXT_CHARS
  {
  }

  /** When the kept chunks fit, the whole of them is handed to the model. */
  lemma ShortContextWhole(hits: seq<SearchHit>, threshold: real)
    requires |Join(Texts(Kept(hits, threshold)), "\n\n")| <= MAX_CONTEXT_CHARS
    ensures ContextFor(Some(hits), threshold) == Join(Texts(Kept(hits, threshold)), "\n\n")
  {
  }

  // ---------------------------------------------------------------------
  // The answer and the reply flag
  // ---------------------------------------------------------------------

  /** `answer`: the refusal when the context is blank, otherwise the model's
      reply passed through `format_text`. */
  function Answer(question: string, context: string, llm: (string, string) -> string): string
  {
    if Strip(context) == [] then REFUSAL else Formatter.FormattedText(llm(question, context))
  }

  /** The model call `ask_question` makes, if any. */
  function CallFor(question: string, context: string): Option<LlmCall>
  {
    if Strip(context) == [] then None else Some(LlmCall(question, context))
  }

  /** `used_pdf_context`: false when the answer mentions "sorry" in any case,
      otherwise whether the context has text. */
  predicate UsedPdf(answer: string, context: string)
  {
    if Contains(Lower(answer), "sorry") then false else Strip(context) != []
  }

  /** The JSON body `ask_question` returns for a context. */
  function ReplyFor(question: string, context: string, llm: (string, string) -> string): AskReply
  {
    var answer := Answer(question, context, llm);
    AskReply(answer, UsedPdf(answer, context))
  }

  /** The answering step of `ask_question`. */
  method GenerateAnswer(question: string, context: string, llm: (string, string) -> string)
    returns (answer: string, call: Option<LlmCall>)
    ensures answer == Answer(question, context, llm)
    ensures call == CallFor(question, context)
  {
    if Strip(context) == [] {
      answer := REFUSAL;
      call := None;
    } else {
      var answerRaw := llm(question, context);
      call := Some(LlmCall(question, context));
      answer := Formatter.FormatText(answerRaw);
    }
  }

  /** The `used_pdf_context` test of `ask_question`. */
  method UsedPdfFlag(answer: string, context: string) returns (usedPdf: bool)
    ensures usedPdf == UsedPdf(answer, context)
  {
    if Contains(Lower(answer), "sorry") {
      usedPdf := false;
    } else {
      usedPdf := Strip(context) != [];
    }
  }

  /** A text that starts with "Sorry" contains "sorry" once lower-cased. */
  lemma SorryFound(s: string)
    requires |s| >= 5 && s[0] == 'S' && s[1] == 'o' && s[2] == 'r' && s[3] == 'r' && s[4] == 'y'
    ensures Contains(Lower(s), "sorry")
  {
    var low := Lower(s);
    assert low[..5] == "sorry";
    ContainsAt(low, "sorry", 0);
  }

  /** The refusal contains "sorry" once lower-cased. */
  lemma RefusalSaysSorry()
    ensures Contains(Lower(REFUSAL), "sorry")
  {
    SorryFound(REFUSAL);
  }

  /** With a blank context the model is not called, the answer is the refusal
      and the reply does not claim to have used the PDFs. */
  lemma BlankContextRefuses(question: string, context: string, llm: (string, string) -> string)
    requires Strip(context) == []
    ensures Answer(question, context, llm) == REFUSAL
    ensures CallFor(question, context) == None
    ensures !UsedPdf(Answer(question, context, llm), context)
  {
    RefusalSaysSorry();
  }

  /** The reply claims to have used the PDFs exactly when the model was called
      on a context with text and its formatted answer does not say "sorry". */
  lemma UsedPdfIff(question: string, context: string, llm: (string, string) -> string)
    ensures UsedPdf(Answer(question, context, llm), context) <==>
              && CallFor(question, context).Some?
              && !Contains(Lower(Formatter.FormattedText(llm(question, context))), "sorry")
  {
    if Strip(context) == [] {
      BlankContextRefuses(question, context, llm);
    }
  }

  /** The answer never holds a Markdown bold marker. */
  lemma AnswerHasNoBoldMarker(question: string, context: string, llm: (string, string) -> string)
    ensures NoDoubleStar(Answer(question, context, llm))
  {
    if Strip(context) == [] {
      assert forall i :: 0 <= i < |REFUSAL| ==> REFUSAL[i] != '*';
    } else {
      Formatter.FormattedTextNoDoubleStar(llm(question, context));
    }
  }

  // ---------------------------------------------------------------------
  // The chat title
  // ---------------------------------------------------------------------

  /** `next((c for c in chats if c["id"] == chat_id), None)`. */
  function FindChat(chats: seq<Chat>, chatId: string): (found: Option<Chat>)
  {
    if chats == [] then None
    else if chats[0].id == chatId then Some(chats[0])
    else FindChat(chats[1..], chatId)
  }

  /** The first chat with the id is found, and none is found only when no chat has it. */
  lemma {:induction false} FindChatFirst(chats: seq<Chat>, chatId: string)
    ensures FindChat(chats, chatId).None? <==> forall i :: 0 <= i < |chats| ==> chats[i].id != chatId
    ensures FindChat(chats, chatId).Some? ==>
              exists i :: 0 <= i < |chats| && chats[i] == FindChat(chats, chatId).value
                && chats[i].id == chatId && forall j :: 0 <= j < i ==> chats[j].id != chatId
    decreases |chats|
  {
    if chats != [] && chats[0].id != chatId {
      FindChatFirst(chats[1..], chatId);
      if FindChat(chats, chatId).Some? {
        var i :| 0 <= i < |chats[1..]| && chats[1..][i] == FindChat(chats, chatId).value
          && chats[1..][i].id == chatId && forall j :: 0 <= j < i ==> chats[1..][j].id != chatId;
        assert chats[i + 1] == chats[1..][i];
        assert forall j :: 0 < j < i + 1 ==> chats[j] == chats[1..][j - 1];
      }
    }
  }

  /** `not chat.get("title")`: a missing, null or empty title. */
  predicate Untitled(c: Chat)
  {
    c.title == None || c.title == Some("")
  }

  /** The title write of `ask_question`: the question's first 40 characters, for
      a chat of the user that has no title yet. */
  function TitleEffect(chats: seq<Chat>, chatId: string, question: string): seq<AskEffect>
  {
    match FindChat(chats, chatId)
    case Some(c) => if Untitled(c) then [SetChatTitle(chatId, Take(question, TITLE_CHARS))] else []
    case None => []
  }

  /** The title step of `ask_question`, after the two messages are stored. */
  method RecordTitle(effects: seq<AskEffect>, chats: seq<Chat>, chatId: string, question: string)
    returns (extended: seq<AskEffect>)
    ensures extended == effects + TitleEffect(chats, chatId, question)
  {
    extended := effects;
    var chat := FindChat(chats, chatId);
    if chat.Some? && Untitled(chat.value) {
      extended := extended + [SetChatTitle(chatId, Take(question, TITLE_CHARS))];
    }
  }

  /** The title write, when there is one, is the question cut to `TITLE_CHARS`
      characters, for the chat with that id, and that chat had no title. */
  lemma TitleEffectShape(chats: seq<Chat>, chatId: string, question: string)
    ensures |TitleEffect(chats, chatId, question)| <= 1
    ensures TitleEffect(chats, chatId, question) != [] <==>
              FindChat(chats, chatId).Some? && Untitled(FindChat(chats, chatId).value)
    ensures forall e :: e in TitleEffect(chats, chatId, question) ==>
              && e == SetChatTitle(chatId, Take(question, TITLE_CHARS))
              && |e.title| <= TITLE_CHARS
              && StartsWith(question, e.title)
              && (|question| <= TITLE_CHARS ==> e.title == question)
  {
  }

  // ---------------------------------------------------------------------
  // The whole request
  // ---------------------------------------------------------------------

  /** What `ask_question` does for a question in a chat, given the result of the
      similarity search (`None` when the user has no index), the score threshold,
      the user's chats and the language model. */
  function AskSpec(userId: string, chatId: string, question: string, search: Option<seq<SearchHit>>,
                   threshold: real, chats: seq<Chat>, llm: (string, string) -> string): AskTrace
  {
    if chatId == [] then AskTrace(Failure(HttpError(400, "chat_id required")), [], None)
    else
      var context := ContextFor(search, threshold);
      var reply := ReplyFor(question, context, llm);
      AskTrace(Success(reply), StoredEffects(userId, chatId, question, reply.answer, chats), CallFor(question, context))
  }

  /** The writes of a request with a chat id: the question, the answer, then the title. */
  function StoredEffects(userId: string, chatId: string, question: string, answer: string, chats: seq<Chat>): seq<AskEffect>
  {
    [InsertMessage(userId, chatId, User, question), InsertMessage(userId, chatId, Assistant, answer)]
      + TitleEffect(chats, chatId, question)
  }

  /** `ask_question`. */
  method AskQuestion(userId: string, chatId: string, question: string, search: Option<seq<SearchHit>>,
                     threshold: real, chats: seq<Chat>, llm: (string, string) -> string)
    returns (trace: AskTrace)
    ensures trace == AskSpec(userId, chatId, question, search, threshold, chats, llm)
  {
    if chatId == [] {
      return AskTrace(Failure(HttpError(400, "chat_id required")), [], None);
    }
    var effects := [InsertMessage(userId, chatId, User, question)];
    var context := BuildContext(search, threshold);
    var answer, call := GenerateAnswer(question, context, llm);
    effects := effects + [InsertMessage(userId, chatId, Assistant, answer)];
    effects := RecordTitle(effects, chats, chatId, question);
    var usedPdf := UsedPdfFlag(answer, context);
    var reply := AskReply(answer, usedPdf);
    assert reply == ReplyFor(question, context, llm);
    assert effects == StoredEffects(userId, chatId, question, reply.answer, chats);
    trace := AskTrace(Success(reply), effects, call);
  }

  // ---------------------------------------------------------------------
  // Properties of a request
  // ---------------------------------------------------------------------

  /** A request without a chat id is rejected with 400 before anything is written or asked. */
  lemma EmptyChatIdRejected(userId: string, question: string, search: Option<seq<SearchHit>>,
                            threshold: real, chats: seq<Chat>, llm: (string, string) -> string)
    ensures var t := AskSpec(userId, "", question, search, threshold, chats, llm);
            t.reply == Failure(HttpError(400, "chat_id required")) && t.effects == [] && t.llmCall == None
  {
  }

  /** With a chat id the request succeeds; it first stores the question, then
      stores exactly the answer it returns, then at most one title write. */
  lemma MessagesStored(userId: string, chatId: string, question: string, search: Option<seq<SearchHit>>,
                       threshold: real, chats: seq<Chat>, llm: (string, string) -> string)
    requires chatId != []
    ensures var t := AskSpec(userId, chatId, question, search, threshold, chats, llm);
            && t.reply.Success?
            && 2 <= |t.effects| <= 3
            && t.effects[0] == InsertMessage(userId, chatId, User, question)
            && t.effects[1] == InsertMessage(userId, chatId, Assistant, t.reply.value.answer)
            && forall k :: 2 <= k < |t.effects| ==> t.effects[k].SetChatTitle?
  {
  }

  /** Without an index for the user the request refuses, without calling the
      model and without claiming to have used the PDFs. */
  lemma NoIndexRefuses(userId: string, chatId: string, question: string,
                       threshold: real, chats: seq<Chat>, llm: (string, string) -> string)
    requires chatId != []
    ensures var t := AskSpec(userId, chatId, question, None, threshold, chats, llm);
            t.reply == Success(AskReply(REFUSAL, false)) && t.llmCall == None
  {
    EmptyContextRefuses(userId, chatId, question, None, threshold, chats, llm);
  }

  /** A request whose retrieval step leaves no context refuses. */
  lemma EmptyContextRefuses(userId: string, chatId: string, question: string, search: Option<seq<SearchHit>>,
                            threshold: real, chats: seq<Chat>, llm: (string, string) -> string)
    requires chatId != [] && ContextFor(search, threshold) == ""
    ensures var t := AskSpec(userId, chatId, question, search, threshold, chats, llm);
            t.reply == Success(AskReply(REFUSAL, false)) && t.llmCall == None
  {
    BlankContextRefuses(question, "", llm);
  }

  /** When no retrieved chunk reaches the threshold the request refuses the same way. */
  lemma NothingKeptRefuses(userId: string, chatId: string, question: string, hits: seq<SearchHit>,
                           threshold: real, chats: seq<Chat>, llm: (string, string) -> string)
    requires chatId != []
    requires forall i :: 0 <= i < |hits| ==> hits[i].score < threshold
    ensures var t := AskSpec(userId, chatId, question, Some(hits), threshold, chats, llm);
            t.reply == Success(AskReply(REFUSAL, false)) && t.llmCall == None
  {
    NoneReachThreshold(hits, threshold);
    EmptyContextRefuses(userId, chatId, question, Some(hits), threshold, chats, llm);
  }

  /** When the model is called, it gets the question and a context with text of
      at most `MAX_CONTEXT_CHARS` characters drawn from kept chunks. */
  lemma LlmCallArguments(userId: string, chatId: string, question: string, search: Option<seq<SearchHit>>,
                         threshold: real, chats: seq<Chat>, llm: (string, string) -> string)
    requires AskSpec(userId, chatId, question, search, threshold, chats, llm).llmCall.Some?
    ensures var c := AskSpec(userId, chatId, question, search, threshold, chats, llm).llmCall.value;
            && chatId != []
            && c.question == question
            && Strip(c.context) != []
            && |c.context| <= MAX_CONTEXT_CHARS
            && search.Some? && Kept(search.value, threshold) != []
  {
    ContextBounded(search, threshold);
  }

  /** A reply that claims to have used the PDFs always comes from a model call. */
  lemma UsedPdfMeansModelCalled(userId: string, chatId: string, question: string, search: Option<seq<SearchHit>>,
                                threshold: real, chats: seq<Chat>, llm: (string, string) -> string)
    requires var t := AskSpec(userId, chatId, question, search, threshold, chats, llm);
             t.reply.Success? && t.reply.value.usedPdfContext
    ensures AskSpec(userId, chatId, question, search, threshold, chats, llm).llmCall.Some?
  {
    var context := ContextFor(search, threshold);
    UsedPdfIff(question, context, llm);
  }

  /** Among the stored writes, the only title write is the one `TitleEffect` gives. */
  lemma StoredTitleWrites(userId: string, chatId: string, question: string, answer: string, chats: seq<Chat>)
    ensures forall e :: e in StoredEffects(userId, chatId, question, answer, chats) && e.SetChatTitle? ==>
              e in TitleEffect(chats, chatId, question)
  {
    var msgs := [InsertMessage(userId, chatId, User, question), InsertMessage(userId, chatId, Assistant, answer)];
    assert StoredEffects(userId, chatId, question, answer, chats) == msgs + TitleEffect(chats, chatId, question);
  }

  /** A title is written only for a chat of the user that has none, and it is the
      question cut to `TITLE_CHARS` characters. */
  lemma TitleOnlyWhenUntitled(userId: string, chatId: string, question: string, search: Option<seq<SearchHit>>,
                              threshold: real, chats: seq<Chat>, llm: (string, string) -> string)
    ensures forall e :: e in AskSpec(userId, chatId, question, search, threshold, chats, llm).effects && e.SetChatTitle? ==>
              && FindChat(chats, chatId).Some? && Untitled(FindChat(chats, chatId).value)
              && e.chatId == chatId
              && |e.title| <= TITLE_CHARS
              && StartsWith(question, e.title)
  {
    TitleEffectShape(chats, chatId, question);
    if chatId != [] {
      var reply := ReplyFor(question, ContextFor(search, threshold), llm);
      assert AskSpec(userId, chatId, question, search, threshold, chats, llm).effects
          == StoredEffects(userId, chatId, question, reply.answer, chats);
      StoredTitleWrites(userId, chatId, question, reply.answer, chats);
    }
  }

  /** An existing title is never overwritten, and a chat not among the user's
      chats never gets one. */
  lemma TitleKept(userId: string, chatId: string, question: string, search: Option<seq<SearchHit>>,
                  threshold: real, chats: seq<Chat>, llm: (string, string) -> string)
    requires FindChat(chats, chatId).None? || !Untitled(FindChat(chats, chatId).value)
    ensures forall e :: e in AskSpec(userId, chatId, question, search, threshold, chats, llm).effects ==> !e.SetChatTitle?
  {
    TitleEffectShape(chats, chatId, question);
    if chatId != [] {
      var reply := ReplyFor(question, ContextFor(search, threshold), llm);
      assert AskSpec(userId, chatId, question, search, threshold, chats, llm).effects
          == StoredEffects(userId, chatId, question, reply.answer, chats);
      StoredTitleWrites(userId, chatId, question, reply.answer, chats);
    }
  }

  /** A question in a chat whose first entry in the user's chats has no title
      sets that title. */
  lemma TitleSetWhenUntitled(userId: string, chatId: string, question: string, search: Option<seq<SearchHit>>,
                             threshold: real, chats: seq<Chat>, llm: (string, string) -> string)
    requires chatId != []
    requires exists i :: 0 <= i < |chats| && chats[i].id == chatId && Untitled(chats[i])
                         && forall j :: 0 <= j < i ==> chats[j].id != chatId
    ensures SetChatTitle(chatId, Take(question, TITLE_CHARS)) in AskSpec(userId, chatId, question, search, threshold, chats, llm).effects
  {
    FindChatFirst(chats, chatId);
    var t := AskSpec(userId, chatId, question, search, threshold, chats, llm);
    assert t.effects[2] == SetChatTitle(chatId, Take(question, TITLE_CHARS));
  }
}
