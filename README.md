# PDF question-answering backend: answer formatting, upload and ask logic

This project models the core of a small FastAPI backend. Users upload PDFs; the
text is chunked and indexed in a per-user vector index. Users then ask
questions in a chat, and the answers come from a language model that sees the
best-matching chunks.

The model covers three parts of that backend.

- **The answer formatter** (`app/formatter.py`), modelled in full:
  - `split_sentences` cuts text after `.`, `!` or `?` followed by spaces, strips
    each sentence, drops empty ones, and splits a sentence longer than
    `max_len` at its commas.
  - `emphasize_keywords` substitutes every capitalised or all-capitals word by
    itself.
  - `format_text` turns the raw model answer into plain lines. It handles the
    blank-answer sentinel, strips each line, removes `**`, and keeps headings
    verbatim. Bullets and numbered items get their prefix on every sentence
    piece.
- **The upload endpoint** (`upload_multiple_pdfs` in `main.py`): which files are
  indexed, the text handed to the chunker, the metadata of every chunk, the
  running chunk count and the final 400 error. The page texts of each file are
  part of its input. The chunker is a function parameter. The calls to the index
  and to the `pdfs` table are returned, in order, as a sequence of effects.
- **The ask endpoint** (`ask_question` in `main.py`). It covers:
  - the `chat_id` check;
  - the score filter over the search results;
  - the context, joined with blank lines and cut to 8000 characters;
  - the refusal when the context is blank, and the call to the model otherwise;
  - `format_text` applied to the model's answer;
  - the two stored messages and the chat title write;
  - the `used_pdf_context` flag.

  The similarity search result is an input (`None` when the user has no index).
  The user's chats are an input. The language model is a function parameter.
  The writes are returned as a sequence of effects.

Where the source changes variables step by step, the model is a method:
- `split_sentences`;
- `format_text`;
- both endpoint loops;
- the score filter;
- the context assembly.

Each such method is proved equal to a specification function. The properties
are proved about those functions as lemmas.

Files:
- `wrappers.dfy`: `Option` and `Result`.
- `http.dfy`: the `HTTPException` value.
- `seqs.dfy`: concatenation of per-element outputs, which is the shape of every
  list-extending loop.
- `pystr.dfy`: the Python string operations the code relies on (`strip`,
  `split`, `join`, `replace`, `lower`, slicing).
- `formatter.dfy`, `upload.dfy` and `ask.dfy`: the three parts above.

A behaviour of the formatter shows up in the model. The blank-answer test
(`app/formatter.py:39`) runs before `**` is removed (`app/formatter.py:51`).
So an answer made only of bold markers, such as `"**"`, gives the empty string
and not the sentinel `"No answer generated."` (`Formatter.BoldOnlyAnswerIsEmpty`).

## Model

| member | source | states |
|---|---|---|
| PyStr.Strip | app/formatter.py:10 | `str.strip()`: the result has no leading or trailing whitespace and is no longer than the input |
| PyStr.StripEmptyIffBlank | app/formatter.py:39 | `not s.strip()` holds exactly of the strings made only of whitespace |
| PyStr.StripIsSlice | app/formatter.py:46 | a stripped line is a contiguous piece of the original line, and every character cut off at either end is whitespace |
| PyStr.SplitOnJoin | app/formatter.py:15 | `","`.join of `s.split(",")` gives back `s` |
| PyStr.SplitOnCount | app/formatter.py:15 | `s.split(",")` has one field more than `s` has commas |
| PyStr.SplitOnFieldsFree | app/formatter.py:15 | no field of `s.split(",")` contains a comma |
| PyStr.Lower | main.py:120 | `lower()` keeps the length and lower-cases each ASCII capital, leaving every other character as it is |
| PyStr.Take | main.py:241 | `s[:n]` is the prefix of `s` of length `n`, or `s` itself when `s` is no longer than `n` |
| PyStr.WordsJoin | app/formatter.py:54 | `s.split()` gives non-empty words without whitespace, and joining them with single spaces gives `s` with each whitespace run made one space and its ends stripped (checked against a character-by-character reference) |
| PyStr.RemoveBoldLeavesNone | app/formatter.py:51 | after `replace("**", "")` no `**` is left in the line |
| PyStr.ReplaceFirst | app/formatter.py:51 | when the first occurrence of the pattern starts right after `pre`, `(pre + pat + post).replace(pat, rep)` is `pre`, then `rep`, then `post` with its own occurrences replaced |
| PyStr.ReplaceAbsent | app/formatter.py:51 | a string without an occurrence of the pattern is left unchanged by `replace` |
| PyStr.ContainsIff | main.py:265 | `sub in s` holds exactly when `sub` occurs in `s` at some position |
| Formatter.NextBreak | app/formatter.py:7 | the next place the sentence regex splits: every position before it is no split point |
| Formatter.SentencesEndWithTerminator | app/formatter.py:7 | every sentence of the split except the last is non-empty and ends with `.`, `!` or `?` |
| Formatter.SentencesHaveNoBreak | app/formatter.py:7 | the split misses no cut: no sentence holds a terminator followed by a space, and no sentence after the first starts with a space |
| Formatter.SentencesRoundTrip | app/formatter.py:7 | the split drops only non-empty runs of spaces, one between each two sentences, and putting them back gives the text again |
| Formatter.SplitSentences | app/formatter.py:3-19 | the loop of `split_sentences` returns exactly the pieces of the sentences, in order |
| Formatter.PiecesOfStripped | app/formatter.py:10-18 | every line `split_sentences` returns is stripped |
| Formatter.ShortSentencesKeptWhole | app/formatter.py:9-18 | when no stripped sentence exceeds `max_len`, the result is the non-blank stripped sentences, in order, each whole |
| Formatter.LongSentencePieces | app/formatter.py:14-16 | a long sentence gives one stripped piece per comma-separated field, in order, and one more piece than it has commas |
| Formatter.SentenceLinesNoDoubleStar | app/formatter.py:3-19 | `split_sentences` introduces no `**` into text that has none |
| Formatter.KeywordMatchExact | app/formatter.py:27 | the match length found is the one the pattern `\b([A-Z][a-zA-Z0-9]+\|[A-Z]{2,})\b` matches, and it is the only length the pattern can match there |
| Formatter.SubstituteIdentity | app/formatter.py:27 | the substitution puts every match back as it was, so the text is unchanged |
| Formatter.EmphasizeKeywords | app/formatter.py:21-27 | `emphasize_keywords` returns its input unchanged |
| Formatter.LeadingDigits | app/formatter.py:69 | the `\d+` group: the longest prefix of digits |
| Formatter.NumberedItem | app/formatter.py:69-71 | a numbered match has a non-empty digit group followed by `.`, and a rest that is a suffix of the line not starting with whitespace; no match means the line does not start with digits and a dot |
| Formatter.NumberedItemRest | app/formatter.py:69-71 | only whitespace lies between the dot and the rest, so the rest is all the line holds after `\s*` |
| Formatter.FormatText | app/formatter.py:29-83 | the loop of `format_text` returns exactly the specified text |
| Formatter.FormatLine | app/formatter.py:45-81 | one loop iteration appends exactly the output of that input line |
| Formatter.FormatItem | app/formatter.py:58-81 | the bullet, numbered and plain cases append exactly the output of the item |
| Formatter.AppendPrefixed | app/formatter.py:64-65 | the inner loop appends each sub-line with the prefix, in order |
| Formatter.FormattedLinesAppend | app/formatter.py:45-83 | the output of two consecutive blocks of lines is the output of the first followed by the output of the second |
| Formatter.BlankLineDropped | app/formatter.py:46-48 | a blank line anywhere in the answer changes nothing in the output |
| Formatter.RemoveBoldAbsent | app/formatter.py:51 | removing `**` from a line without one leaves the line unchanged |
| Formatter.HeadingKeptVerbatim | app/formatter.py:54-56 | a stripped heading line without `**` (at most six words or ending in `:`) is output as it is, even when it starts with a bullet marker or a number |
| Formatter.BulletLinesPrefixed | app/formatter.py:59-66 | a bullet gives one `• ` line per sentence piece of its content, each line being the marker followed by that piece |
| Formatter.NumberedLinesPrefixed | app/formatter.py:69-76 | a numbered item gives one `<num>. ` line per sentence piece of its rest, each line being the digits, `. ` and that piece |
| Formatter.PlainLinesSplit | app/formatter.py:78-81 | any other line (not a heading, bullet or numbered item) becomes its `split_sentences` pieces, each stripped; when no sentence is longer than the limit, these are the line's stripped non-blank sentences in order |
| Formatter.LineOutputNoDoubleStar | app/formatter.py:45-81 | no output line of any input line holds `**` |
| Formatter.FormattedLinesNoDoubleStar | app/formatter.py:45-81 | no output line of any list of input lines holds `**` |
| Formatter.FormattedTextNoDoubleStar | app/formatter.py:29-83 | the text `format_text` returns never holds a bold marker |
| Formatter.BlankTextGivesSentinel | app/formatter.py:39-40 | an empty or whitespace-only answer becomes `"No answer generated."` |
| Formatter.BoldOnlyAnswerIsEmpty | app/formatter.py:39-51 | the answer `"**"` formats to the empty string, not to the sentinel |
| Upload.UploadOne | main.py:119-174 | one iteration reports whether the name is a PDF name, how many chunks it added and the index and database calls it made |
| Upload.UploadMultiplePdfs | main.py:116-183 | the loop and the final test return exactly the specified response and calls |
| Upload.NonPdfSkipped | main.py:119-121 | a file whose lower-cased name does not end in `.pdf` adds no chunks and makes no call |
| Upload.OversizedSkipped | main.py:133-134 | a saved file of more than 50 MB (52428800 bytes) adds no chunks and makes no call; exactly 50 MB is accepted |
| Upload.PdfNameIff | main.py:120 | a name is accepted if and only if its last four characters are `.pdf` in any mix of cases |
| Upload.UpperCaseExtensionAccepted | main.py:120 | `.PDF` and `.pdf` names are accepted, `.pdfx` is not |
| Upload.NonBlankPagesHaveText | main.py:141-143 | every page joined into the full text has text left after stripping |
| Upload.NonBlankPagesMembership | main.py:141-143 | a page is kept if and only if it is one of the pages and has text after stripping |
| Upload.NonBlankPagesAppend | main.py:141-143 | the kept pages keep the document's order |
| Upload.NonBlankPagesSingle | main.py:141-143 | a single page is kept exactly once when it has text and dropped when it is blank |
| Upload.NonBlankPagesEmptyIff | main.py:141-143 | no page is kept exactly when every page is blank |
| Upload.JoinNonBlank | main.py:141-146 | joining at least one non-blank page gives a non-blank text |
| Upload.FullTextBlankIff | main.py:141-146 | the full text is blank exactly when every page is blank |
| Upload.AllBlankPagesSkipped | main.py:141-146 | a PDF whose pages are all blank adds no chunks |
| Upload.FileEffectsWellTagged | main.py:156-174 | one file makes a call exactly when it has chunks. The index call holds its chunks in order, each tagged with the file's name, the user's id and its position from 0. The PDF then registered is that file |
| Upload.RegisteredFiles | main.py:119-174 | the PDFs registered with `insert_pdf` are exactly the uploaded files that had chunks to index, by name and in upload order |
| Upload.UploadEffectsWellTagged | main.py:119-174 | the calls of a whole upload come in pairs. Each pair is an index call followed by the registration of the PDF it came from. The index call has at least one chunk, and every chunk carries that file name, the user's id and its position from 0 |
| Upload.IndexedCountAppend | main.py:173 | the number of indexed chunks of consecutive calls adds up |
| Upload.FileEffectsIndexed | main.py:168-173 | one file's index call holds exactly the chunks it adds to `total_chunks` |
| Upload.TotalChunksIsIndexed | main.py:173 | `total_chunks` is exactly the number of chunk records handed to the index |
| Upload.ChunksImplyPdf | main.py:119-122 | a chunk count above zero implies that a PDF name was seen |
| Upload.UploadFailsIffNothingIndexed | main.py:176-183 | the request fails with 400 exactly when nothing was indexed; on success it reports the number of indexed chunks |
| Upload.NoPdfFails | main.py:176-177 | an upload without any PDF name fails with 400 `"No valid PDFs uploaded"` |
| Ask.FilterResults | main.py:227-231 | the filter loop returns exactly the hits whose score reaches the threshold, in order |
| Ask.KeptSnoc | main.py:229-231 | one more result is appended exactly when its score reaches the threshold |
| Ask.KeptMembership | main.py:229-231 | a hit is kept if and only if it is a result with score `>=` the threshold |
| Ask.NoneReachThreshold | main.py:229-239 | when every score is below the threshold nothing is kept |
| Ask.KeptAppend | main.py:229-231 | the filter keeps order: the kept hits of consecutive results are consecutive |
| Ask.DroppedScoreBelowKept | main.py:230 | every dropped hit scores strictly below every kept hit |
| Ask.BuildContext | main.py:219-241 | the context assembly returns exactly the specified context |
| Ask.ContextBounded | main.py:239-241 | the context is a prefix of the kept hits' page contents (`Texts`, in the order of the hits) joined by blank lines, cut to exactly 8000 characters when the join is longer. It is empty without an index or without kept hits |
| Ask.ShortContextWhole | main.py:240-241 | when the joined texts fit in 8000 characters the context is all of them |
| Ask.GenerateAnswer | main.py:247-255 | the refusal when the context is blank; otherwise one call to the model with the question and the context, and the formatted reply |
| Ask.UsedPdfFlag | main.py:265-268 | the `used_pdf_context` branch computes the specified flag |
| Ask.RefusalSaysSorry | main.py:248 | the refusal sentence contains "sorry" once lower-cased |
| Ask.BlankContextRefuses | main.py:247-248 | a blank context gives the refusal, no model call and `used_pdf_context` false |
| Ask.UsedPdfIff | main.py:247-268 | `used_pdf_context` holds exactly when the model was called and its formatted answer does not mention "sorry" |
| Ask.AnswerHasNoBoldMarker | main.py:247-255 | the stored and returned answer never holds `**` |
| Ask.FindChatFirst | main.py:261 | the chat found is the first with the id, and none is found exactly when no chat has it |
| Ask.RecordTitle | main.py:260-263 | the title step appends exactly the specified title write |
| Ask.TitleEffectShape | main.py:260-263 | at most one title write. There is one exactly when the chat exists and has no title. It sets that chat's title to the question's first 40 characters |
| Ask.AskQuestion | main.py:205-273 | the whole request returns exactly the specified reply, writes and model call |
| Ask.EmptyChatIdRejected | main.py:205-206 | a missing chat id is rejected with 400 before anything is written or asked |
| Ask.MessagesStored | main.py:207-263 | with a chat id the request succeeds. It stores the question, then exactly the answer it returns, then at most a title |
| Ask.NoIndexRefuses | main.py:219-248 | without an index the answer is the refusal, the model is not called and the flag is false |
| Ask.EmptyContextRefuses | main.py:239-248 | an empty context gives the refusal without a model call |
| Ask.NothingKeptRefuses | main.py:227-248 | when no score reaches the threshold the answer is the refusal without a model call |
| Ask.LlmCallArguments | main.py:239-253 | a model call carries the question and a non-blank context of at most 8000 characters. It happens only with a chat id, an index and at least one kept hit |
| Ask.UsedPdfMeansModelCalled | main.py:247-268 | `used_pdf_context` true implies that the model was called |
| Ask.StoredTitleWrites | main.py:257-263 | the only title write among the stored effects is the title step's |
| Ask.TitleOnlyWhenUntitled | main.py:260-263 | any title write is for the request's chat, which exists and had no title, and is a prefix of the question of at most 40 characters |
| Ask.TitleKept | main.py:262 | a chat that is missing or already titled gets no title write |
| Ask.TitleSetWhenUntitled | main.py:260-263 | when the first chat with the id has no title, it gets the question's first 40 characters as its title |

## Left out

- I/O of both endpoints is not modelled:
  - saving the upload to disk under a timestamped name (main.py:124-132) is left out; the model takes the size of the saved file as an input;
  - the PDF reader (`load_pdf`) is left out; each file carries its page texts, and an empty list also stands for the reader returning nothing;
  - the text splitter (`split_text`, its chunk size and overlap) is a function parameter;
  - the vector index (`create_or_update_faiss`, `load_faiss_index`, `similarity_search_with_score` and `TOP_K`) is left out;
  - the database (`insert_message`, `insert_pdf`, `get_user_chats`, `set_chat_title`) is left out; its calls become returned effects.
- Conversation memory (main.py:209-217) is left out. It is a side channel into the language model, which is a function parameter here: the replay of earlier messages and the prompt are folded into that parameter.
- The language model's prompt and word limit are left out, for the same reason.
- The chats list is an input. In the source it is read after both messages are stored, so a database that changed in between is not captured.
- `SIMILARITY_THRESHOLD` is a parameter, because its definition in config.py:23 is commented out and its value is not part of the source.
- Scores are `real`; floating-point rounding of FAISS distances is not modelled.
- Exceptions raised by foreign calls (a PDF that cannot be read, a failing model or database) are not modelled.
- The debug `print` calls (main.py:235-237, main.py:244-245) are left out.
- Authentication, chat management, PDF deletion, CORS and startup are not part of this model.
- Text handling is narrower than Python's:
  - `splitlines` is modelled as a split on `'\n'` only;
  - `lower()`, `\w`, `\d` and `[a-zA-Z0-9]` are ASCII-only;
  - whitespace for `strip` and `split()` is Python's set of whitespace characters, written out.
- `emphasize_keywords` is modelled as its regex's matches with the match substituted by itself. The regex's second alternative `[A-Z]{2,}` only matches what the first alternative already matches, so it is not written out.
- The filter keeps a result whose score is `>=` the threshold (main.py:230), although the comment on that line says a smaller score is a better match. The model follows the code.
- The calls as written would fail at run time; the model treats them as succeeding with the arguments the endpoints mean to pass:
  - main.py:11 imports `SIMILARITY_THRESHOLD`, whose only definition (config.py:23) is commented out, so the import raises `ImportError`;
  - the database helpers in app/crud.py take a `supabase` client as their first argument (for example `insert_message(supabase, user_id, chat_id, role, content)` at app/crud.py:38), but main.py calls them without it, so every argument lands one place early (main.py:174, 207, 211, 257, 260, 263).
